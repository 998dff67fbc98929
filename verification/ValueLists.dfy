/** Dictionaries of lists that are objects, and can be shared. */
module ValueLists {
  import opened FlatMemory
  import opened ChangedAreas

  class ValueList {
    var items: seq<int>

    constructor (items: seq<int>)
      ensures this.items == items
    {
      this.items := items;
    }
  }

  type Dictionary = map<string, ValueList>

  /** The three dictionaries of a node object. */
  datatype Dictionaries = Dictionaries(current: Dictionary, prev: Dictionary, next: Dictionary)

  /** The values that a dictionary leads to. */
  ghost function Items(c: Dictionary): Cache
    reads c.Values
  {
    map name | name in c :: c[name].items
  }

  /** The values of a dictionary after a list of this name has become xs. */
  ghost function After(c: Dictionary, before: Cache, name: string, list: ValueList, xs: seq<int>): Cache {
    if name in c && c[name] == list then before[name := xs] else before
  }

  lemma {:induction false} Changed(c: Dictionary, before: Cache, name: string, list: ValueList)
    requires before.Keys == c.Keys && forall n :: n in c && c[n] != list ==> c[n].items == before[n]
    requires forall n :: n in c && n != name ==> c[n] != list
    ensures Items(c) == After(c, before, name, list, list.items)
  {
  }

  /** Two different names do not lead to the same list. */
  ghost predicate Apart(c: Dictionary, d: Dictionary) {
    forall a, b :: a in c && b in d && a != b ==> c[a] != d[b]
  }

  function Each(d: Dictionaries): seq<Dictionary> {
    [d.current, d.prev, d.next]
  }

  ghost predicate AllApart(d: Dictionaries) {
    forall i, k :: 0 <= i <= k < 3 ==> Apart(Each(d)[i], Each(d)[k])
  }

  lemma {:induction false} AllPairs(d: Dictionaries)
    ensures AllApart(d) <==> && Apart(d.current, d.current) && Apart(d.prev, d.prev) && Apart(d.next, d.next)
                             && Apart(d.current, d.prev)
                             && Apart(d.current, d.next)
                             && Apart(d.prev, d.next)
  {
    var c := Each(d);
    assert c[0] == d.current && c[1] == d.prev && c[2] == d.next;
  }

  /** The names for which two dictionaries lead to the same list. */
  ghost function Same(c: Dictionary, d: Dictionary): set<string> {
    set name | name in c && name in d && c[name] == d[name]
  }

  ghost function TiesIn(d: Dictionaries): Ties {
    Ties(Same(d.current, d.prev), Same(d.current, d.next), Same(d.prev, d.next))
  }

  ghost function ListsIn(d: Dictionaries): set<ValueList> {
    (set name | name in d.current :: d.current[name]) + (set name | name in d.prev :: d.prev[name]) +
    (set name | name in d.next :: d.next[name])
  }

  /** None of the lists is in the dictionary. */
  ghost predicate NewTo(lists: Dictionary, c: Dictionary) {
    forall a, b :: a in lists && b in c ==> lists[a] != c[b]
  }

  ghost predicate New(lists: Dictionary, d: Dictionaries) {
    Apart(lists, lists) && NewTo(lists, d.current) && NewTo(lists, d.prev) && NewTo(lists, d.next)
  }

  /** Two dictionaries, the one or the other or both of which take over lists that are in neither. */
  lemma {:induction false} MergeTwo(c: Dictionary, d: Dictionary, lists: Dictionary, inC: bool, inD: bool)
    requires Apart(c, d) && Apart(lists, lists) && NewTo(lists, c) && NewTo(lists, d)
    ensures var c', d' := if inC then c + lists else c, if inD then d + lists else d;
            && Apart(c', d')
            && Same(c', d') == (if inC || inD then Same(c, d) - lists.Keys else Same(c, d)) +
               (if inC && inD then lists.Keys else {})
  {
  }

  ghost function Merged(d: Dictionaries, lists: Dictionary, inCurrent: bool, inPrev: bool, inNext: bool): Dictionaries {
    Dictionaries(if inCurrent then d.current + lists else d.current,
                 if inPrev then d.prev + lists else d.prev,
                 if inNext then d.next + lists else d.next)
  }

  lemma {:induction false} Merge(d: Dictionaries, lists: Dictionary, inCurrent: bool, inPrev: bool, inNext: bool)
    requires AllApart(d) && New(lists, d)
    ensures var e := Merged(d, lists, inCurrent, inPrev, inNext);
            AllApart(e) && TiesIn(e) == TiesMerged(TiesIn(d), lists.Keys, inCurrent, inPrev, inNext)
  {
    AllPairs(d);
    MergeTwo(d.current, d.current, lists, inCurrent, inCurrent);
    MergeTwo(d.prev, d.prev, lists, inPrev, inPrev);
    MergeTwo(d.next, d.next, lists, inNext, inNext);
    MergeTwo(d.current, d.prev, lists, inCurrent, inPrev);
    MergeTwo(d.current, d.next, lists, inCurrent, inNext);
    MergeTwo(d.prev, d.next, lists, inPrev, inNext);
    AllPairs(Merged(d, lists, inCurrent, inPrev, inNext));
  }

  /** One new list. */
  ghost function Bound(d: Dictionaries, name: string, list: ValueList, inPrev: bool, inNext: bool): Dictionaries {
    Dictionaries(d.current[name := list], if inPrev then d.prev[name := list] else d.prev,
                 if inNext then d.next[name := list] else d.next)
  }

  lemma {:induction false} BindTies(d: Dictionaries, name: string, list: ValueList, inPrev: bool, inNext: bool)
    requires AllApart(d) && New(map[name := list], d)
    ensures var e := Bound(d, name, list, inPrev, inNext);
            AllApart(e) && TiesIn(e) == TiesMerged(TiesIn(d), {name}, true, inPrev, inNext)
  {
    var lists := map[name := list];
    Merge(d, lists, true, inPrev, inNext);
    assert lists.Keys == {name};
    MergedOne(d.current, name, list);
    MergedOne(d.prev, name, list);
    MergedOne(d.next, name, list);
  }

  lemma {:induction false} MergedOne(c: Dictionary, name: string, list: ValueList)
    ensures c + map[name := list] == c[name := list]
  {
  }

  /** The pending list as the previous one, too. */
  lemma {:induction false} RememberTies(d: Dictionaries, name: string)
    requires AllApart(d) && name in d.next && name !in TiesIn(d).currentNext
    ensures var t, e := TiesIn(d), d.(prev := d.prev[name := d.next[name]]);
            AllApart(e) && TiesIn(e) == Ties(t.currentPrev - {name}, t.currentNext, t.prevNext + {name})
  {
    AllPairs(d);
    AllPairs(d.(prev := d.prev[name := d.next[name]]));
  }

  /** The two assignments of a slice, one after the other. */
  lemma {:induction false} SlicesAre(d: Dictionaries, s: Lists, name: string, j: nat, ys: seq<int>)
    requires s.ties == TiesIn(d) && Consistent(s) && name in d.current
    requires s.values.Keys == d.current.Keys && s.prev.Keys == d.prev.Keys && s.next.Keys == d.next.Keys
    ensures var list := d.current[name];
            var xs := Assigned(s.values[name], j, ys);
            var c, p, n := After(d.current, s.values, name, list, xs), After(d.prev, s.prev, name, list, xs),
              After(d.next, s.next, name, list, xs);
            if name in d.prev then
              var other, zs := d.prev[name], Assigned(p[name], j, ys);
              WriteBoth(s, name, j, ys) == Lists(After(d.current, c, name, other, zs),
                After(d.prev, p, name, other, zs),
                                                 After(d.next, n, name, other, zs), s.ties, s.names + [name], true)
            else WriteBoth(s, name, j, ys) == Lists(c, p, n, s.ties, s.names + [name], false)
  {
  }

  /** New lists instead of all there were. */
  lemma {:induction false} Replace(d: Dictionaries, lists: Dictionary, alsoPrev: bool)
    requires AllApart(d) && New(lists, d)
    ensures var e := Dictionaries(lists, if alsoPrev then lists else d.prev, d.next);
            AllApart(e) && TiesIn(e) == Ties(if alsoPrev then lists.Keys else {}, {}, if alsoPrev then {}
              else Same(d.prev, d.next))
  {
    var e := Dictionaries(lists, if alsoPrev then lists else d.prev, d.next);
    forall i, k | 0 <= i <= k < 3 ensures Apart(Each(e)[i], Each(e)[k]) {
      assert Apart(Each(d)[i], Each(d)[k]);
    }
  }

  lemma {:induction false} BoundItems(c: Dictionary, name: string, list: ValueList)
    ensures Items(c[name := list]) == Items(c)[name := list.items]
  {
  }

  /** New lists for all values. */
  method MakeLists(values: Cache) returns (lists: Dictionary)
    ensures Items(lists) == values
    ensures lists.Keys == values.Keys
    ensures Apart(lists, lists)
    ensures forall name :: name in lists ==> fresh(lists[name])
  {
    lists := map[];
    var rest := values.Keys;
    while rest != {}
      invariant rest <= values.Keys && lists.Keys == values.Keys - rest && Apart(lists, lists)
      invariant forall name :: name in lists ==> fresh(lists[name]) && lists[name].items == values[name]
      decreases rest
    {
      var name :| name in rest;
      var list := new ValueList(values[name]);
      lists := lists[name := list];
      rest := rest - {name};
    }
  }
}
