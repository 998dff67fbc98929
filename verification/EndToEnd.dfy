/** From a simulated node to the cache of a client: the parts of the model joined together. */
module EndToEnd {
  import opened Layout
  import opened FlatMemory
  import opened Int16Cells
  import opened Options
  import Discovery
  import CacheSync
  import ChangedAreas
  import NetworkNode
  import AsebaCode
  import Mirroring
  import MirroringRuns
  import MirroringPayloads

  /** A client has received a header that announces the variables a node has described, and then all of
      them, in whatever company. */
  ghost predicate HasHeard(c: Discovery.Config, signals: seq<Discovery.Signal>, sent: seq<Variable>) {
    var r := Discovery.Recall(c, signals).record;
    && r.Admitted?
    && sent != []
    && r.header.variables == |sent|
    && sent <= Discovery.Variables(r.fragments)
  }

  /** Then its table is that of the description, whatever else it has received, and has the node's own addresses,
      however many variables the node has added since. */
  lemma {:induction false} ClientKnowsAddresses(
    c: Discovery.Config, signals: seq<Discovery.Signal>, a: NetworkNode.Allocation, sent: seq<Variable>,
    later: seq<Variable>, name: string)
    requires NetworkNode.Agrees(a) && sent <= a.published && HasHeard(c, signals, sent)
    ensures Discovery.Run(c, signals).node.Some?
    ensures var table := Discovery.Run(c, signals).node.value.variables; var now := NetworkNode.AddAll(a, later);
            name in table ==> Lookup(now.named, name) == Some(table[name])
  {
    Discovery.Reassembly(c, signals);
    var r := Discovery.Recall(c, signals).record;
    assert Discovery.Variables(r.fragments)[..|sent|] == sent;
    assert Discovery.Run(c, signals).node.value.variables == VariablesMapOf(sent);
    NetworkNode.AdditionsKeepAgreement(a, later, name);
    if name in VariablesMapOf(sent) { NetworkNode.ClientAgrees(a, sent, name); }
  }

  /** The cells that the description covers. */
  function Described(cells: seq<int>, sent: seq<Variable>): seq<int> {
    if TotalSize(sent) <= |cells| then cells[..TotalSize(sent)] else cells
  }

  lemma {:induction false} DescribedTiles(a: NetworkNode.Allocation, sent: seq<Variable>, cells: seq<int>)
    requires NetworkNode.Agrees(a) && sent <= a.published && PositiveSizes(sent)
             && |cells| == NetworkNode.VARIABLES_TOTAL_SIZE
    ensures TotalSize(sent) <= |cells|
    ensures CacheSync.Tiles(VariablesMapOf(sent), sent, Described(cells, sent))
  {
    var n := |sent|;
    assert a.published[..n] == sent == sent[..n];
    PrefixAgrees(sent, a.published, n);
    OffsetMonotone(a.published, n, |a.published|);
    assert forall k :: 0 <= k < n ==> sent[k] == a.published[k];
  }

  /** What the client reads by name is what the node has under that name; what it writes, as far as the
      bindings do not refuse it and the variable has room for it, is what the node itself would have written,
      and nothing else. */
  lemma {:induction false} ClientReadsAndWrites(
    a: NetworkNode.Allocation, sent: seq<Variable>, cells: seq<int>, name: string, value: seq<int>)
    requires NetworkNode.Agrees(a) && sent <= a.published && PositiveSizes(sent)
             && |cells| == NetworkNode.VARIABLES_TOTAL_SIZE
    requires name in VariablesMapOf(sent)
    ensures CacheSync.Read(Described(cells, sent), VariablesMapOf(sent), name) == NetworkNode.Get(cells, a.named, name)
    ensures |value| <= VariablesMapOf(sent)[name].size && AllInt16(value) ==>
              CacheSync.Write(Described(cells, sent), VariablesMapOf(sent), name, value)
              == Described(NetworkNode.Put(cells, a.named, name, value), sent)
  {
    DescribedTiles(a, sent, cells);
    NetworkNode.ClientAgrees(a, sent, name);
    var table, memory := VariablesMapOf(sent), Described(cells, sent);
    CacheSync.PlaceOf(table, sent, memory, name);
    var k: nat :| CacheSync.IsPlace(table, sent, memory, name, k);
    var place := table[name];
    assert place.index + place.size <= |memory| == TotalSize(sent) <= |cells|;
    assert cells[..TotalSize(sent)][place.index..place.index + place.size] ==
           cells[place.index..place.index + place.size];
    if |value| <= place.size && AllInt16(value) {
      assert value[..Shorter(|value|, place.size)] == value;
      WrapAllIsExact(value);
      assert Overwrite(cells, place.index, value)[..TotalSize(sent)] == Overwrite(memory, place.index, value);
    }
  }

  /** A memory that has changed in some areas only: the areas, in ascending order, bring a cache that was right
      before up to date, as reading everything again would. */
  lemma {:induction false} ChangedAreasSuffice(
    table: VariablesMap, vs: seq<Variable>, before: seq<int>, areas: seq<Area>, cached: ChangedAreas.Lists,
    name: string)
    requires CacheSync.Tiles(table, vs, before) && Ascending(areas)
    requires cached.ok && ChangedAreas.Whole(cached, vs) && ChangedAreas.Consistent(cached)
    requires Flat(cached.values, vs) == Flat(cached.prev, vs) == before && name in table
    ensures forall a :: a in Reached(areas, |before|) ==> a.start <= TotalSize(vs)
    ensures var now := ChangedAreas.StoreAll(cached, vs, Reached(areas, |before|));
            && now.ok
            && Lookup(now.values, name) == Some(CacheSync.ReadAll(OverwriteAll(before, areas), table)[name])
            && Lookup(now.prev, name) == Some(CacheSync.ReadAll(OverwriteAll(before, areas), table)[name])
  {
    var reached := Reached(areas, |before|);
    ChangedAreas.ReachedBound(areas, |before|);
    ChangedAreas.StoreAllOverwrites(cached, vs, reached);
    AscendingLosesNothing(before, areas);
    var now := ChangedAreas.StoreAll(cached, vs, reached);
    WholeIsReadAll(table, vs, now.values, name);
    WholeIsReadAll(table, vs, now.prev, name);
  }

  /** Lists of full length hold what reading the memory that they amount to would give. */
  lemma {:induction false} WholeIsReadAll(table: VariablesMap, vs: seq<Variable>, c: Cache, name: string)
    requires FullLength(c, vs) && CacheSync.Tiles(table, vs, Flat(c, vs)) && name in table
    ensures Lookup(c, name) == Some(CacheSync.ReadAll(Flat(c, vs), table)[name])
  {
    CacheSync.PlaceOf(table, vs, Flat(c, vs), name);
    var k: nat :| CacheSync.IsPlace(table, vs, Flat(c, vs), name, k);
    SliceOfFlat(c, vs, k);
  }

  /** The node's variables, by name, as the code that runs on it sees them. */
  ghost predicate SameMemory(m: AsebaCode.Memory, cells: seq<int>, table: VariablesMap) {
    forall n :: n in table ==> n in m && m[n] == CacheSync.Read(cells, table, n)
  }

  /** What a client reads from a mirrored event are the values of that moment: such an event keeps its cache
      right. */
  lemma {:induction false} MirroredEventIsFaithful(
    s: MirroringRuns.Setup, name: string, spec: Mirroring.EventSpec, m: AsebaCode.Memory, vs: seq<Variable>,
    cache: CacheSync.State, owned: set<string>)
    requires MirroringRuns.Mirrors(s, name, spec) && cache.table == s.vs
    requires CacheSync.Tiles(s.vs, vs, cache.memory) && SameMemory(m, cache.memory, s.vs)
    ensures Mirroring.EventName(name) in MirroringRuns.BookOf(s).eventsVariables
    ensures CacheSync.Faithful(cache, owned, CacheSync.Mirrored(
              Mirroring.Pieces(AsebaCode.Concat(m, Mirroring.Parts(name, spec)),
                               MirroringRuns.BookOf(s).eventsVariables[Mirroring.EventName(name)])))
  {
    assert MirroringPayloads.Sized(s.vs, m) by {
      forall n | n in s.vs ensures n in m && |m[n]| == s.vs[n].size {
        CacheSync.PlaceOf(s.vs, vs, cache.memory, n);
        var k: nat :| CacheSync.IsPlace(s.vs, vs, cache.memory, n, k);
      }
    }
    MirroringPayloads.BookHas(s, name, spec);
    var values := Mirroring.Pieces(AsebaCode.Concat(m, Mirroring.Parts(name, spec)),
                                   MirroringRuns.BookOf(s).eventsVariables[Mirroring.EventName(name)]);
    forall n | n in values && n in s.vs && n in owned ensures values[n] == CacheSync.Read(cache.memory, s.vs, n) {
      MirroringPayloads.EventRoundTrip(s, name, spec, m, n);
    }
  }
}
