/** The variable cache of pyaseba/client/node/node.py. The lists of values are objects, since the dictionaries share
    them and `_set_changes` changes them in place. */
module VariableCache {
  import opened Layout
  import opened FlatMemory
  import opened Int16Cells
  import opened ChangedAreas
  import opened ValueLists
  import CacheSync

  datatype Description = Description(variables: VariablesMap, byIndex: map<nat, Variable>, size: nat)

  class Node {
    /** The variables the node has declared, in layout order; its description follows from it. */
    ghost var layout: seq<Variable>
    var description: Description
    /** The names that the node's filters admit. */
    const selected: set<string>
    var syncVariables: set<string>
    var variableValues: Dictionary
    var prevVariablesValues: Dictionary
    var nextVariablesValues: Dictionary
    /** The memory of the remote node, as the requests of the client read and write it. */
    var memory: seq<int>

    ghost predicate Described()
      reads this
    {
      && DistinctNames(layout) && PositiveSizes(layout)
      && description.byIndex == IndexOf(layout)
      && description.size == TotalSize(layout)
    }

    ghost function All(): Dictionaries
      reads this
    {
      Dictionaries(variableValues, prevVariablesValues, nextVariablesValues)
    }

    /** Different names have different lists. */
    ghost predicate Valid()
      reads this
    {
      AllApart(All())
    }

    ghost function Footprint(): set<ValueList>
      reads this
    {
      ListsIn(All())
    }

    ghost function State(): CacheSync.State
      reads this, Footprint()
    {
      CacheSync.State(memory, description.variables, Items(variableValues), Items(prevVariablesValues),
        Items(nextVariablesValues))
    }

    ghost function SharedLists(): Ties
      reads this
    {
      TiesIn(All())
    }

    ghost function Snapshot(names: seq<string>, ok: bool): Lists
      reads this, Footprint()
    {
      Lists(Items(variableValues), Items(prevVariablesValues), Items(nextVariablesValues), SharedLists(), names, ok)
    }

    constructor (ghost layout: seq<Variable>, description: Description, selected: set<string>, memory: seq<int>)
      ensures this.layout == layout
      ensures this.description == description
      ensures this.selected == selected
      ensures Valid()
      ensures syncVariables == description.variables.Keys * selected
      ensures State() == CacheSync.Connected(description.variables, memory)
      ensures SharedLists() == UNTIED
    {
      this.layout, this.description, this.selected, this.memory := layout, description, selected, memory;
      syncVariables := {};
      variableValues, prevVariablesValues, nextVariablesValues := map[], map[], map[];
      new;
      InitVariables();
    }

    /** A new list as the current and the previous value of a name. */
    method BindRead(name: string, list: ValueList)
      requires Valid() && New(map[name := list], All())
      modifies this`variableValues, this`prevVariablesValues
      ensures Valid()
      ensures SharedLists() == TiesMerged(old(SharedLists()), {name}, true, true, false)
      ensures Items(variableValues) == old(Items(variableValues))[name := list.items]
      ensures Items(prevVariablesValues) == old(Items(prevVariablesValues))[name := list.items]
      ensures Items(nextVariablesValues) == old(Items(nextVariablesValues))
      ensures name in variableValues
      ensures variableValues[name] == list
    {
      BindTies(All(), name, list, true, false);
      BoundItems(variableValues, name, list);
      BoundItems(prevVariablesValues, name, list);
      variableValues := variableValues[name := list];
      prevVariablesValues := prevVariablesValues[name := list];
    }

    /** A new list as the current and the pending value of a name. */
    method BindPending(name: string, list: ValueList)
      requires Valid() && New(map[name := list], All())
      modifies this`variableValues, this`nextVariablesValues
      ensures Valid()
      ensures SharedLists() == TiesMerged(old(SharedLists()), {name}, true, false, true)
      ensures Items(variableValues) == old(Items(variableValues))[name := list.items]
      ensures Items(prevVariablesValues) == old(Items(prevVariablesValues))
      ensures Items(nextVariablesValues) == old(Items(nextVariablesValues))[name := list.items]
      ensures name in variableValues
      ensures variableValues[name] == list
    {
      BindTies(All(), name, list, false, true);
      BoundItems(variableValues, name, list);
      BoundItems(nextVariablesValues, name, list);
      variableValues := variableValues[name := list];
      nextVariablesValues := nextVariablesValues[name := list];
    }

    /** A new list as the current value of a name. */
    method BindCurrent(name: string, list: ValueList)
      requires Valid() && New(map[name := list], All())
      modifies this`variableValues
      ensures Valid()
      ensures SharedLists() == TiesMerged(old(SharedLists()), {name}, true, false, false)
      ensures Items(variableValues) == old(Items(variableValues))[name := list.items]
      ensures Items(prevVariablesValues) == old(Items(prevVariablesValues))
      ensures Items(nextVariablesValues) == old(Items(nextVariablesValues))
      ensures name in variableValues
      ensures variableValues[name] == list
    {
      BindTies(All(), name, list, false, false);
      BoundItems(variableValues, name, list);
      variableValues := variableValues[name := list];
    }

    /** What connecting and loading a script do with the cache: the description is fetched, and every variable of it
        gets an empty list. */
    method Describe(ghost layout: seq<Variable>, description: Description, memory: seq<int>)
      requires Valid()
      modifies this
      ensures this.layout == layout
      ensures this.description == description
      ensures Valid()
      ensures syncVariables == description.variables.Keys * selected
      ensures State() == CacheSync.Step(old(State()), CacheSync.Describe(description.variables, memory))
      ensures SharedLists() == TiesAfter(old(State()), old(SharedLists()),
              CacheSync.Describe(description.variables, memory))
    {
      this.layout, this.description, this.memory := layout, description, memory;
      InitVariables();
    }

    method InitVariables()
      requires Valid()
      modifies this`variableValues, this`syncVariables
      ensures syncVariables == description.variables.Keys * selected
      ensures Valid()
      ensures SharedLists() == Ties({}, {}, old(SharedLists()).prevNext)
      ensures State() == old(State()).(current := CacheSync.Blank(description.variables))
    {
      var lists := MakeLists(CacheSync.Blank(description.variables));
      Replace(All(), lists, false);
      variableValues, syncVariables := lists, description.variables.Keys * selected;
    }

    /** All variables at once; without an answer within the waiting time nothing changes. The two dictionaries then
        have the same lists. */
    method Update(answered: bool)
      requires Valid()
      modifies this`variableValues, this`prevVariablesValues
      ensures Valid()
      ensures State() == CacheSync.Step(old(State()), CacheSync.Update(answered))
      ensures SharedLists() == TiesAfter(old(State()), old(SharedLists()), CacheSync.Update(answered))
    {
      var vs := MakeLists(if answered then CacheSync.ReadAll(memory, description.variables) else map[]);
      if vs.Keys != {} {
        assert answered && description.variables != map[];
        Take(vs);
      }
    }

    method Take(vs: Dictionary)
      requires Valid() && New(vs, All())
      modifies this`variableValues, this`prevVariablesValues
      ensures Valid()
      ensures SharedLists() == Ties(vs.Keys, {}, {})
      ensures State() == old(State()).(current := Items(vs), prev := Items(vs))
    {
      Replace(All(), vs, true);
      variableValues, prevVariablesValues := vs, vs;
    }

    method Get(name: string, cached: bool, answered: bool) returns (value: seq<int>)
      requires Valid()
      modifies this`variableValues, this`prevVariablesValues
      ensures Valid()
      ensures State() == CacheSync.Step(old(State()), CacheSync.Get(name, cached, answered))
      ensures SharedLists() == TiesAfter(old(State()), old(SharedLists()), CacheSync.Get(name, cached, answered))
      ensures name in variableValues
      ensures value == variableValues[name].items
    {
      if !cached || name !in variableValues {
        var v := new ValueList(if answered then CacheSync.Read(memory, description.variables, name) else []);
        BindRead(name, v);
      }
      value := variableValues[name].items;
    }

    /** A value that the bindings cannot convert is refused when it is to be sent, and nothing has changed. */
    method Set(name: string, value: seq<int>, cached: bool) returns (ok: bool)
      requires Valid()
      modifies this`variableValues, this`nextVariablesValues, this`memory
      ensures Valid()
      ensures ok <==> cached || AllInt16(value)
      ensures !cached ==> nextVariablesValues == old(nextVariablesValues)
      ensures var op := if cached then CacheSync.SetCached(name, value) else CacheSync.SetDirect(name, value);
              && State() == CacheSync.Step(old(State()), op)
              && SharedLists() == TiesAfter(old(State()), old(SharedLists()), op)
    {
      if cached {
        AssignProperty(name, value);
        ok := true;
      } else {
        ok := Send(name, value);
      }
    }

    /** A value for the remote node. */
    method Send(name: string, value: seq<int>) returns (ok: bool)
      requires Valid()
      modifies this`variableValues, this`memory
      ensures Valid() && ok == AllInt16(value)
      ensures State() == CacheSync.Step(old(State()), CacheSync.SetDirect(name, value))
      ensures SharedLists() == TiesAfter(old(State()), old(SharedLists()), CacheSync.SetDirect(name, value))
    {
      ok := AllInt16(value);
      if ok {
        var list := new ValueList(value);
        memory := CacheSync.Write(memory, description.variables, name, value);
        BindCurrent(name, list);
      }
    }

    /** The setter of a property bound to a variable. */
    method AssignProperty(name: string, value: seq<int>)
      requires Valid()
      modifies this`variableValues, this`nextVariablesValues
      ensures Valid()
      ensures State() == CacheSync.Step(old(State()), CacheSync.SetCached(name, value))
      ensures SharedLists() == TiesAfter(old(State()), old(SharedLists()), CacheSync.SetCached(name, value))
    {
      var list := new ValueList(value);
      BindPending(name, list);
    }

    /** The variables read from a mirrored event. */
    method EventCallback(values: Cache)
      requires Valid()
      modifies this`variableValues, this`prevVariablesValues
      ensures Valid()
      ensures State() == CacheSync.Step(old(State()), CacheSync.Mirrored(values))
      ensures SharedLists() == TiesAfter(old(State()), old(SharedLists()), CacheSync.Mirrored(values))
    {
      MirrorAll(values);
      assert values.Keys * old(State()).current.Keys == set name | name in values && name in old(State()).current;
    }

    /** The loop over the variables. */
    method MirrorAll(values: Cache)
      requires Valid()
      modifies this`variableValues, this`prevVariablesValues
      ensures Valid()
      ensures Items(nextVariablesValues) == old(Items(nextVariablesValues))
      ensures Items(variableValues) ==
              CacheSync.Refreshed(old(Items(variableValues)), old(Items(variableValues)), values)
      ensures Items(prevVariablesValues) ==
              CacheSync.Refreshed(old(Items(prevVariablesValues)), old(Items(variableValues)), values)
      ensures SharedLists() == TiesMerged(old(SharedLists()), values.Keys * old(Items(variableValues)).Keys, true,
              true, false)
    {
      var done: set<string> := {};
      ghost var current, prev, next := Items(variableValues), Items(prevVariablesValues), Items(nextVariablesValues);
      ghost var ties := SharedLists();
      while values.Keys - done != {}
        invariant done <= values.Keys && Valid()
        invariant Items(variableValues) == CacheSync.Refreshed(current, current, Restrict(values, done))
        invariant Items(prevVariablesValues) == CacheSync.Refreshed(prev, current, Restrict(values, done))
        invariant Items(nextVariablesValues) == next
        invariant SharedLists() == TiesMerged(ties, done * current.Keys, true, true, false)
        decreases values.Keys - done
      {
        var name :| name in values.Keys - done;
        RefreshOne(current, current, values, done, name);
        RefreshOne(prev, current, values, done, name);
        MergeOne(ties, done, current.Keys, name);
        Mirror(name, values[name]);
        done := done + {name};
      }
      forall name | name in values ensures name in done { assert name !in values.Keys - done; }
      assert Restrict(values, done) == values;
      assert done == values.Keys;
    }

    /** One name of the event, if it is cached. */
    method Mirror(name: string, value: seq<int>)
      requires Valid()
      modifies this`variableValues, this`prevVariablesValues
      ensures Valid()
      ensures Items(nextVariablesValues) == old(Items(nextVariablesValues))
      ensures Items(variableValues) ==
              var was := old(Items(variableValues)); if name in was then was[name := value] else was
      ensures Items(prevVariablesValues) ==
              var was := old(Items(prevVariablesValues)); if name in old(variableValues) then was[name := value]
                else was
      ensures SharedLists() ==
              var was := old(SharedLists()); if name in old(variableValues)
                then TiesMerged(was, {name}, true, true, false) else was
    {
      if name in variableValues {
        var list := new ValueList(value);
        BindRead(name, list);
      }
    }

    /** Goes through the sync variables in an order of its own choosing, until a value is refused. */
    method Sync() returns (ok: bool, ghost order: seq<string>)
      requires Valid()
      modifies this`variableValues, this`prevVariablesValues, this`nextVariablesValues, this`memory
      ensures Valid()
      ensures CacheSync.GoesThrough(old(State()), order, syncVariables)
      ensures ok <==> CacheSync.Reach(old(State()), order) == |order|
      ensures State() == CacheSync.Step(old(State()), CacheSync.Sync(order))
      ensures SharedLists() == TiesAfter(old(State()), old(SharedLists()), CacheSync.Sync(order))
    {
      ghost var s, ties := State(), SharedLists();
      ok, order := SendPending();
      if ok {
        Forget();
      }
      SyncIs(s, ties, order, ok);
    }

    /** The loop over the sync variables. */
    method SendPending() returns (ok: bool, ghost order: seq<string>)
      requires Valid()
      modifies this`variableValues, this`prevVariablesValues, this`nextVariablesValues, this`memory
      ensures Valid()
      ensures CacheSync.NoRepeat(order) && forall name :: name in order ==> name in syncVariables
      ensures ok ==> CacheSync.Lists(order, syncVariables)
      ensures |order| == CacheSync.Reach(old(State()), order) + if ok then 0 else 1
      ensures State() == CacheSync.SyncAlong(old(State()), order)
      ensures SharedLists() == TiesSent(old(SharedLists()), CacheSync.SentOf(old(State()), order))
    {
      order := [];
      ghost var s, ties := State(), SharedLists();
      var rest := syncVariables;
      while rest != {}
        invariant rest <= syncVariables && CacheSync.Lists(order, syncVariables - rest) && Valid()
        invariant CacheSync.Reach(s, order) == |order|
        invariant State() == CacheSync.SyncAlong(s, order)
        invariant SharedLists() == TiesSent(ties, CacheSync.SentOf(s, order))
        decreases rest
      {
        var name :| name in rest;
        CacheSync.ListsFurther(order, syncVariables - rest, name);
        assert syncVariables - rest + {name} == syncVariables - (rest - {name});
        ok := SyncNext(s, ties, order, name);
        order := order + [name];
        if !ok {
          return;
        }
        rest := rest - {name};
      }
      assert syncVariables - rest == syncVariables;
      ok := true;
    }

    /** One name more. */
    method SyncNext(ghost s: CacheSync.State, ghost ties: Ties, ghost order: seq<string>, name: string)
      returns (ok: bool)
      requires Valid() && name !in order && CacheSync.Reach(s, order) == |order|
      requires State() == CacheSync.SyncAlong(s, order) && SharedLists() == TiesSent(ties, CacheSync.SentOf(s, order))
      modifies this`variableValues, this`prevVariablesValues, this`nextVariablesValues, this`memory
      ensures Valid() && CacheSync.Reach(s, order + [name]) == |order| + if ok then 1 else 0
      ensures State() == CacheSync.SyncAlong(s, order + [name])
      ensures SharedLists() == TiesSent(ties, CacheSync.SentOf(s, order + [name]))
    {
      CacheSync.SyncFurther(s, order, name);
      SentFurther(s, ties, order, name);
      ok := SyncVariable(name);
    }

    method Forget()
      requires Valid()
      modifies this`nextVariablesValues
      ensures Valid()
      ensures SharedLists() == Ties(old(SharedLists()).currentPrev, {}, {})
      ensures State() == old(State()).(next := map[])
    {
      AllPairs(All());
      AllPairs(All().(next := map[]));
      nextVariablesValues := map[];
    }

    /** One variable: its pending value is sent, as a copy, if it is not the one remembered, and is remembered. */
    method SyncVariable(name: string) returns (ok: bool)
      requires Valid()
      modifies this`variableValues, this`prevVariablesValues, this`nextVariablesValues, this`memory
      ensures Valid()
      ensures ok <==> !CacheSync.Blocks(old(State()), name)
      ensures State() == CacheSync.SyncOne(old(State()), name)
      ensures SharedLists() == if CacheSync.Sends(old(State()), name) then TiesSent(old(SharedLists()), {name})
              else old(SharedLists())
    {
      ok := true;
      if name in nextVariablesValues {
        var value := nextVariablesValues[name];
        if name !in prevVariablesValues || value.items != prevVariablesValues[name].items {
          ok := Set(name, value.items, false);
          if ok {
            Remember(name);
          }
        }
      }
    }

    method Remember(name: string)
      requires Valid() && name in nextVariablesValues && name !in SharedLists().currentNext
      modifies this`prevVariablesValues
      ensures Valid()
      ensures SharedLists() ==
              var t := old(SharedLists()); Ties(t.currentPrev - {name}, t.currentNext, t.prevNext + {name})
      ensures State() == var s := old(State()); s.(prev := s.prev[name := s.next[name]])
    {
      RememberTies(All(), name);
      BoundItems(prevVariablesValues, name, nextVariablesValues[name]);
      prevVariablesValues := prevVariablesValues[name := nextVariablesValues[name]];
    }

    /** Any operation, or a change of the remote memory by somebody else. The order of a sync is not the
        caller's to choose: the operation made is the one with the order taken. Only the variables of a new
        description matter to these operations. */
    method Do(op: CacheSync.Op) returns (ghost made: CacheSync.Op)
      requires Valid() && syncVariables == description.variables.Keys * selected
      modifies this
      ensures Valid() && syncVariables == description.variables.Keys * selected
      ensures Makes(old(State()), op, made)
      ensures State() == CacheSync.Step(old(State()), made)
      ensures SharedLists() == TiesAfter(old(State()), old(SharedLists()), made)
    {
      made := op;
      match op {
        case Update(answered) => Update(answered);
        case Get(name, cached, answered) => var value := Get(name, cached, answered);
        case SetDirect(name, value) => var ok := Set(name, value, false);
        case SetCached(name, value) => var ok := Set(name, value, true);
        case Mirrored(values) => EventCallback(values);
        case Sync(_) =>
          var ok;
          ghost var order;
          ok, order := Sync();
          made := CacheSync.Sync(order);
        case Remote(changed) => memory := changed;
        case Describe(table, changed) => Describe([], Description(table, map[], 0), changed);
      }
    }

    /** A sync goes through the variables of the description that the filters admit. */
    ghost predicate Makes(s: CacheSync.State, op: CacheSync.Op, made: CacheSync.Op) {
      if op.Sync? then made.Sync? && CacheSync.GoesThrough(s, made.order, s.table.Keys * selected) else made == op
    }

    /** A new node object after any operations is what the specification of runs says, and shares the lists that it
        says. */
    method Replay(ops: seq<CacheSync.Op>) returns (ghost made: seq<CacheSync.Op>)
      requires Valid() && State() == CacheSync.Connected(description.variables, memory) && SharedLists() == UNTIED
      requires syncVariables == description.variables.Keys * selected
      modifies this
      ensures |made| == |ops|
      ensures forall k :: 0 <= k < |ops| ==> Makes(CacheSync.Run(old(State()), made[..k]), ops[k], made[k])
      ensures Valid()
      ensures State() == CacheSync.Run(old(State()), made)
      ensures SharedLists() == TiesOf(old(State()), made)
    {
      made := [];
      ghost var first := State();
      for k := 0 to |ops|
        invariant |made| == k && syncVariables == description.variables.Keys * selected
        invariant forall j :: 0 <= j < k ==> Makes(CacheSync.Run(first, made[..j]), ops[j], made[j])
        invariant Valid() && State() == CacheSync.Run(first, made) && SharedLists() == TiesOf(first, made)
      {
        ghost var m := Do(ops[k]);
        RunFurther(first, made, m);
        assert forall j :: 0 <= j <= k ==> (made + [m])[..j] == made[..j];
        made := made + [m];
      }
    }

    // -------------------------------------------------------------- changed areas

    /** _set_changes: the areas reached are stored in the lists, variable by variable. An exception is raised exactly if
        a variable touched has no list; otherwise the names are those of the variables touched. If all lists have
        their full length, the cache afterwards, read as flat memory, is the flat memory before with these areas
        written over it. */
    method SetChanges(changes: seq<Area>) returns (ok: bool, names: seq<string>)
      requires Valid() && Described()
      modifies Footprint()
      ensures Valid() && forall a :: a in Reached(changes, description.size) ==> a.start <= TotalSize(layout)
      ensures Snapshot(names, ok) == StoreAll(old(Snapshot([], true)), layout, Reached(changes, description.size))
      ensures var all := TouchedAll(layout, Reached(changes, description.size));
              && (ok <==> Listed(old(Snapshot([], true)), all) &&
                          forall a :: a in Reached(changes, description.size) ==> Placeable(layout, a))
              && (ok ==> names == all)
      ensures ok && old(Whole(Snapshot([], true), layout)) ==>
                && Whole(Snapshot(names, ok), layout)
                && Flat(Items(variableValues), layout) ==
                   OverwriteAll(old(Flat(Items(variableValues), layout)), Reached(changes, description.size))
                && Flat(Items(prevVariablesValues), layout) ==
                   OverwriteAll(old(Flat(Items(prevVariablesValues), layout)), Reached(changes, description.size))
    {
      ghost var before, reached := Snapshot([], true), Reached(changes, description.size);
      IsConsistent([], true);
      ReachedBound(changes, description.size);
      ok, names := ApplyReached(changes);
      StoreAllReports(before, layout, reached);
      if ok && Whole(before, layout) {
        StoreAllOverwrites(before, layout, reached);
      }
    }

    lemma IsConsistent(names: seq<string>, ok: bool)
      ensures Consistent(Snapshot(names, ok))
    {
    }

    /** The loop over the areas, left at the first that starts beyond the end. */
    method ApplyReached(changes: seq<Area>) returns (ok: bool, names: seq<string>)
      requires Valid() && Described()
      modifies Footprint()
      ensures forall a :: a in Reached(changes, description.size) ==> a.start <= TotalSize(layout)
      ensures Snapshot(names, ok) == StoreAll(old(Snapshot([], true)), layout, Reached(changes, description.size))
    {
      ghost var before, reached := Snapshot([], true), Reached(changes, description.size);
      ReachedBound(changes, description.size);
      var c;
      ok, names, c := SetUntil(changes);
      ReachedBegins(changes, description.size, c);
      if ok {
        ReachedStops(changes, description.size, c);
      } else {
        StoreAllEnds(before, layout, reached, c);
      }
    }

    /** As many areas as can be stored. */
    method SetUntil(changes: seq<Area>) returns (ok: bool, names: seq<string>, c: nat)
      requires Valid() && Described()
      modifies Footprint()
      ensures c <= |changes| && forall k :: 0 <= k < c ==> changes[k].start <= TotalSize(layout)
      ensures ok && c < |changes| ==> changes[c].start > TotalSize(layout)
      ensures Snapshot(names, ok) == StoreAll(old(Snapshot([], true)), layout, changes[..c])
    {
      ok, names, c := true, [], 0;
      while ok && c < |changes| && changes[c].start <= description.size
        invariant c <= |changes| && forall k :: 0 <= k < c ==> changes[k].start <= description.size
        invariant Snapshot(names, ok) == StoreAll(old(Snapshot([], true)), layout, changes[..c])
        decreases |changes| - c
      {
        ok, names := SetNext(changes, c, names, old(Snapshot([], true)));
        c := c + 1;
      }
    }

    /** One more area. */
    method SetNext(changes: seq<Area>, c: nat, known: seq<string>, ghost before: Lists)
        returns (ok: bool, names: seq<string>)
      requires Valid() && Described() && c < |changes| && forall k :: 0 <= k <= c ==>
               changes[k].start <= description.size
      requires Snapshot(known, true) == StoreAll(before, layout, changes[..c])
      modifies Footprint()
      ensures Snapshot(names, ok) == StoreAll(before, layout, changes[..c + 1])
    {
      StoreAllStep(before, layout, changes, c);
      ok, names := SetChange(changes[c], known);
    }

    /** One area. */
    method SetChange(area: Area, known: seq<string>) returns (ok: bool, names: seq<string>)
      requires Valid() && Described() && area.start <= description.size
      modifies Footprint()
      ensures Snapshot(names, ok) ==
              Store(old(Snapshot(known, true)), layout, Owner(layout, area.start), area.start, area.values)
    {
      ok, names := true, known;
      var i: nat, rest := area.start, area.values;
      ghost var p := Owner(layout, i);
      ghost var all := Store(Snapshot(known, true), layout, p, i, rest);
      while ok && rest != []
        invariant ok && rest != [] ==> Owns(layout, p, i)
        invariant Store(Snapshot(names, ok), layout, p, i, rest) == all
        decreases |rest|
      {
        var end, l;
        ok, end, l, names := Turn(i, rest, names, p);
        if l == 0 {
          break;
        }
        i, rest, p := end, rest[l..], p + 1;
      }
      if !ok || rest == [] {
      }
    }

    /** One turn of the inner loop: as much of the rest as the variable that owns the cell can take. */
    method Turn(i: nat, rest: seq<int>, known: seq<string>, ghost p: nat)
      returns (ok: bool, end: nat, l: nat, names: seq<string>)
      requires Valid() && Described() && rest != [] && Owns(layout, p, i)
      modifies Footprint()
      ensures l <= |rest|
      ensures var s := old(Snapshot(known, true));
              if l == 0 then Store(s, layout, p, i, rest) == Snapshot(names, ok)
              else Owns(layout, p + 1, end) &&
                   Store(Snapshot(names, ok), layout, p + 1, end, rest[l..]) == Store(s, layout, p, i, rest)
    {
      var start, j;
      ok, start, j := Descend(i, p);
      end, l, names := 0, 0, known;
      if !ok {
        return;
      }
      var name, size := description.byIndex[start].name, description.byIndex[start].size;
      end := start + size;
      l := if size - j <= |rest| then size - j else |rest|;
      if l == 0 {
      } else {
        ok := StoreOne(name, j, l, i, rest, known, p, end);
        names := known + [name];
      }
    }

    /** The part of the rest that is for variable p. */
    method StoreOne(name: string, j: nat, l: nat, ghost i: nat, rest: seq<int>, ghost known: seq<string>, ghost p: nat,
                    ghost end: nat) returns (ok: bool)
      requires Valid() && PositiveSizes(layout) && rest != [] && p < |layout| && Owns(layout, p, i)
      requires name == layout[p].name && j == i - Offset(layout, p) && end == Offset(layout, p) + layout[p].size
      requires l == if end - i <= |rest| then end - i else |rest|
      modifies Footprint()
      ensures Owns(layout, p + 1, end)
      ensures Store(Snapshot(known + [name], ok), layout, p + 1, end, rest[l..]) ==
              Store(old(Snapshot(known, true)), layout, p, i, rest)
    {
      ghost var s := Snapshot(known, true);
      ok := AssignSlices(name, j, rest[..l], known);
    }

    /** The slice of the current list, then the slice of the previous one, which may be the same list. */
    method AssignSlices(name: string, j: nat, ys: seq<int>, ghost names: seq<string>) returns (ok: bool)
      requires Valid()
      modifies Footprint()
      ensures Snapshot(names + [name], ok) == WriteBoth(old(Snapshot(names, true)), name, j, ys)
    {
      ok := false;
      if name in variableValues {
        SlicesAre(All(), Snapshot(names, true), name, j, ys);
        AssignSlice(variableValues[name], name, j, ys);
        if name in prevVariablesValues {
          AssignSlice(prevVariablesValues[name], name, j, ys);
          ok := true;
        }
      }
    }

    /** A list of the name is changed in place, wherever it is held. */
    method AssignSlice(list: ValueList, ghost name: string, j: nat, ys: seq<int>)
      requires Valid()
      requires (name in variableValues && variableValues[name] == list)
               || (name in prevVariablesValues && prevVariablesValues[name] == list)
      modifies list
      ensures list.items == Assigned(old(list.items), j, ys)
      ensures Items(variableValues) == After(variableValues, old(Items(variableValues)), name, list, list.items)
      ensures Items(prevVariablesValues) ==
              After(prevVariablesValues, old(Items(prevVariablesValues)), name, list, list.items)
      ensures Items(nextVariablesValues) ==
              After(nextVariablesValues, old(Items(nextVariablesValues)), name, list, list.items)
    {
      AllPairs(All());
      list.items := SliceAssign(list.items, j, j + |ys|, ys);
      Changed(variableValues, old(Items(variableValues)), name, list);
      Changed(prevVariablesValues, old(Items(prevVariablesValues)), name, list);
      Changed(nextVariablesValues, old(Items(nextVariablesValues)), name, list);
    }

    /** Walks down to the cell where a variable starts: the variable p that owns the cell, or the last one
        for the cell after the end. Without variables there is none. */
    method Descend(start: nat, ghost p: nat) returns (found: bool, i: int, j: nat)
      requires Described() && Owns(layout, p, start)
      ensures found <==> layout != []
      ensures found ==> i + j == start && 0 <= i && i in description.byIndex
      ensures found ==> var q := if p < |layout| then p else |layout| - 1;
                        i == Offset(layout, q) && description.byIndex[i] == layout[q]
    {
      i, j := start, 0;
      ghost var q: int := if p < |layout| then p else |layout| - 1;
      if layout != [] {
        OffsetMonotone(layout, q, p);
        IndexHolds(layout, |layout|, q);
      }
      while i !in description.byIndex && i >= 0
        invariant i + j == start && (layout != [] ==> Offset(layout, q) <= i)
        invariant forall k :: i < k <= start ==> k !in description.byIndex
        decreases i
      {
        i := i - 1;
        j := j + 1;
      }
      found := i in description.byIndex;
      if found {
        EndsAt(layout, q, i);
      }
    }
  }

  /** A walk that ends within variable q, or behind the last one, ends where it begins. */
  lemma {:induction false} EndsAt(vs: seq<Variable>, q: nat, i: nat)
    requires PositiveSizes(vs) && q < |vs| && i in IndexOf(vs) && Offset(vs, q) <= i
    requires i < Offset(vs, q + 1) || q == |vs| - 1
    ensures i == Offset(vs, q) && IndexOf(vs)[i] == vs[q]
  {
    IndexHoldsOnly(vs, |vs|, i);
    var r: nat :| Begins(vs, r, i, IndexOf(vs)[i]);
    assert Begins(vs, r, i, IndexOf(vs)[i]);
    if r < q { OffsetMonotone(vs, r, q); }
    if q < r { OffsetMonotone(vs, q + 1, r); }
  }

  function Restrict(values: Cache, names: set<string>): Cache {
    map name | name in values && name in names :: values[name]
  }

  lemma {:induction false} MergeOne(t: Ties, done: set<string>, cached: set<string>, name: string)
    requires name !in done
    ensures var u := TiesMerged(t, done * cached, true, true, false);
            TiesMerged(t, (done + {name}) * cached, true, true, false) ==
            if name in cached then TiesMerged(u, {name}, true, true, false) else u
  {
    assert (done + {name}) * cached == done * cached + if name in cached then {name} else {};
  }

  /** One more name read from the event. */
  lemma {:induction false} RefreshOne(c: Cache, cached: Cache, values: Cache, done: set<string>, name: string)
    requires name in values && name !in done
    ensures var before := CacheSync.Refreshed(c, cached, Restrict(values, done));
            CacheSync.Refreshed(c, cached, Restrict(values, done + {name})) ==
            if name in cached then before[name := values[name]] else before
  {
    var few, more := Restrict(values, done), Restrict(values, done + {name});
    assert more == few[name := values[name]];
    RefreshMore(c, cached, few, name, values[name]);
  }

  lemma {:induction false} RefreshMore(c: Cache, cached: Cache, values: Cache, name: string, value: seq<int>)
    requires name !in values
    ensures CacheSync.Refreshed(c, cached, values[name := value]) ==
            if name in cached then CacheSync.Refreshed(c, cached, values)[name := value]
              else CacheSync.Refreshed(c, cached, values)
  {
  }

  /** A sync that has gone through all names, or has been stopped by the last of them. */
  lemma {:induction false} SyncIs(s: CacheSync.State, ties: Ties, order: seq<string>, ok: bool)
    requires |order| == CacheSync.Reach(s, order) + if ok then 0 else 1
    ensures var t, u := CacheSync.SyncAlong(s, order), TiesSent(ties, CacheSync.SentOf(s, order));
            && CacheSync.Step(s, CacheSync.Sync(order)) == (if ok then t.(next := map[]) else t)
            && TiesAfter(s, ties, CacheSync.Sync(order)) == if ok then Ties(u.currentPrev, {}, {}) else u
  {
    if ok { CacheSync.SyncEnds(s, order); } else { CacheSync.SyncStops(s, order); }
    assert order[..|order|] == order;
  }

  /** One more name of a sync. */
  lemma {:induction false} SentFurther(s: CacheSync.State, ties: Ties, order: seq<string>, name: string)
    requires name !in order
    ensures var t, u := CacheSync.SyncAlong(s, order), TiesSent(ties, CacheSync.SentOf(s, order));
            && (CacheSync.Sends(t, name) <==> CacheSync.Sends(s, name))
            && TiesSent(ties, CacheSync.SentOf(s, order + [name])) ==
               if CacheSync.Sends(s, name) then TiesSent(u, {name}) else u
  {
    CacheSync.SyncKeeps(s, order, name);
    assert CacheSync.SentOf(s, order + [name]) ==
           CacheSync.SentOf(s, order) + if CacheSync.Sends(s, name) then {name} else {};
  }
}
