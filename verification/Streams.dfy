/** The numbering of connections (src/client/streams_manager.h) and the way they are selected. */
module Streams {
  import opened Selection
  import opened Options

  /** A stream is open to a target: two streams may have the same target. */
  datatype Stream = Stream(handle: nat, target: string)

  datatype Table = Table(
    nextIndex: nat, indices: map<Stream, nat>, streams: map<nat, Stream>, targetIndices: map<string, nat>)

  datatype Operation = Add(stream: Stream) | Remove(stream: Stream)

  function EmplaceIn(m: map<nat, Stream>, i: nat, s: Stream): map<nat, Stream> {
    if i in m then m else m[i := s]
  }

  function Added(t: Table, s: Stream): Table {
    if s in t.indices then t
    else if s.target in t.targetIndices then
      var i := t.targetIndices[s.target];
      t.(indices := t.indices[s := i], streams := EmplaceIn(t.streams, i, s))
    else
      Table(t.nextIndex + 1, t.indices[s := t.nextIndex], EmplaceIn(t.streams, t.nextIndex, s),
            t.targetIndices[s.target := t.nextIndex])
  }

  function Removed(t: Table, s: Stream): Table {
    if s in t.indices then t.(streams := t.streams - {t.indices[s]}, indices := t.indices - {s}) else t
  }

  function Apply(t: Table, op: Operation): Table {
    match op
    case Add(s) => Added(t, s)
    case Remove(s) => Removed(t, s)
  }

  const EMPTY := Table(1, map[], map[], map[])

  function Run(ops: seq<Operation>): Table {
    if ops == [] then EMPTY else Apply(Run(ops[..|ops| - 1]), ops[|ops| - 1])
  }

  function AllOf(t: Table, include_: set<nat>, exclude: set<nat>): set<Stream> {
    set s | s in t.indices && IsValid(t.indices[s], include_, exclude)
  }

  function IndicesOf(t: Table, include_: set<nat>, exclude: set<nat>): set<nat> {
    set s | s in t.indices && IsValid(t.indices[s], include_, exclude) :: t.indices[s]
  }

  class StreamsManager {
    var nextIndex: nat
    var indices: map<Stream, nat>
    var streams: map<nat, Stream>
    var targetIndices: map<string, nat>

    function Snapshot(): Table
      reads this
    {
      Table(nextIndex, indices, streams, targetIndices)
    }

    constructor ()
      ensures Snapshot() == EMPTY
    {
      nextIndex, indices, streams, targetIndices := 1, map[], map[], map[];
    }

    method AddStream(s: Stream)
      modifies this
      ensures Snapshot() == Added(old(Snapshot()), s)
    {
      if s !in indices {
        var index;
        if s.target in targetIndices {
          index := targetIndices[s.target];
        } else {
          index := nextIndex;
          nextIndex := nextIndex + 1;
          targetIndices := targetIndices[s.target := index];
        }
        indices := indices[s := index];
        if index !in streams {
          streams := streams[index := s];
        }
      }
    }

    method RemoveStream(s: Stream)
      modifies this
      ensures Snapshot() == Removed(old(Snapshot()), s)
    {
      if s in indices {
        streams := streams - {indices[s]};
        indices := indices - {s};
      }
    }

    method GetAll(include_: set<nat>, exclude: set<nat>) returns (rs: set<Stream>)
      ensures rs == AllOf(Snapshot(), include_, exclude)
    {
      rs := {};
      var done: set<Stream> := {};
      while indices.Keys - done != {}
        invariant done <= indices.Keys
        invariant rs == set s | s in done && IsValid(indices[s], include_, exclude)
        decreases indices.Keys - done
      {
        var s :| s in indices.Keys - done;
        if (include_ == {} || indices[s] in include_) && indices[s] !in exclude {
          rs := rs + {s};
        }
        done := done + {s};
      }
      forall s | s in indices.Keys ensures s in done { assert s !in indices.Keys - done; }
      assert done == indices.Keys;
    }

    method GetIndices(include_: set<nat>, exclude: set<nat>) returns (rs: set<nat>)
      ensures rs == IndicesOf(Snapshot(), include_, exclude)
    {
      rs := {};
      var done: set<Stream> := {};
      while indices.Keys - done != {}
        invariant done <= indices.Keys
        invariant rs == set s | s in done && IsValid(indices[s], include_, exclude) :: indices[s]
        decreases indices.Keys - done
      {
        var s :| s in indices.Keys - done;
        if (include_ == {} || indices[s] in include_) && indices[s] !in exclude {
          rs := rs + {indices[s]};
        }
        done := done + {s};
      }
      forall s | s in indices.Keys ensures s in done { assert s !in indices.Keys - done; }
      assert done == indices.Keys;
    }

    /** A negative index asks for any stream. */
    method Get(index: int) returns (found: bool, s: Stream)
      ensures index < 0 ==> (found <==> indices != map[]) && (found ==> s in indices)
      ensures index >= 0 ==> (found <==> index in streams) && (found ==> s == streams[index])
    {
      found, s := false, Stream(0, "");
      if index < 0 {
        if indices.Keys != {} {
          found := true;
          s :| s in indices;
        }
      } else if index in streams {
        found, s := true, streams[index];
      }
    }

    method GetIndex(s: Stream) returns (index: nat)
      ensures index == if s in indices then indices[s] else 0
    {
      index := if s in indices then indices[s] else 0;
    }

    method Replay(ops: seq<Operation>)
      requires Snapshot() == EMPTY
      modifies this
      ensures Snapshot() == Run(ops)
    {
      for k := 0 to |ops|
        invariant Snapshot() == Run(ops[..k])
      {
        assert ops[..k + 1][..k] == ops[..k];
        match ops[k] {
          case Add(s) => AddStream(s);
          case Remove(s) => RemoveStream(s);
        }
      }
      assert ops[..|ops|] == ops;
    }
  }

  // ---------------------------------------------------------------- every run

  /** Targets have different positive indices below the next one. */
  ghost predicate TargetsSound(t: Table) {
    && t.nextIndex >= 1
    && (forall n :: n in t.targetIndices ==> 1 <= t.targetIndices[n] < t.nextIndex)
    && (forall m, n :: m in t.targetIndices && n in t.targetIndices && t.targetIndices[m] == t.targetIndices[n] ==>
       m == n)
  }

  /** Open streams have the index of their target. */
  ghost predicate IndicesSound(t: Table) {
    forall s :: s in t.indices ==> s.target in t.targetIndices && t.indices[s] == t.targetIndices[s.target]
  }

  /** An index leads to an open stream of that index. */
  ghost predicate StreamsSound(t: Table) {
    forall i :: i in t.streams ==> t.streams[i] in t.indices && t.indices[t.streams[i]] == i
  }

  ghost predicate Sound(t: Table) {
    TargetsSound(t) && IndicesSound(t) && StreamsSound(t)
  }

  lemma {:induction false} SoundStep(t: Table, op: Operation)
    requires Sound(t)
    ensures Sound(Apply(t, op))
  {
    match op {
      case Add(s) =>
        AddStreams(t, s);
      case Remove(s) => RemoveSound(t, s);
    }
  }

  lemma {:induction false} AddStreams(t: Table, s: Stream)
    requires StreamsSound(t)
    ensures StreamsSound(Added(t, s))
  {
  }

  lemma {:induction false} RemoveSound(t: Table, s: Stream)
    requires Sound(t)
    ensures Sound(Removed(t, s))
  {
  }

  /** Every run: indices are positive, below the next one, and never shared by two targets; a stream that
      an index leads to has that index. */
  lemma {:induction false} SoundRun(ops: seq<Operation>)
    ensures Sound(Run(ops))
  {
    if ops != [] {
      SoundRun(ops[..|ops| - 1]);
      SoundStep(Run(ops[..|ops| - 1]), ops[|ops| - 1]);
    }
  }

  /** A target keeps its index for good: whenever it is connected again, it gets the same one. */
  lemma {:induction false} IndexIsStable(ops: seq<Operation>, more: seq<Operation>, s: Stream, again: Stream)
    requires s in Run(ops).indices && again in Run(ops + more).indices && again.target == s.target
    ensures Run(ops + more).indices[again] == Run(ops).indices[s]
  {
    SoundRun(ops);
    SoundRun(ops + more);
    TargetIsStable(ops, more, s.target);
  }

  lemma {:induction false} TargetIsStable(ops: seq<Operation>, more: seq<Operation>, target: string)
    requires target in Run(ops).targetIndices
    ensures Lookup(Run(ops + more).targetIndices, target) == Some(Run(ops).targetIndices[target])
  {
    if more == [] {
      assert ops + more == ops;
    } else {
      var n := |more| - 1;
      TargetIsStable(ops, more[..n], target);
      assert (ops + more)[..|ops + more| - 1] == ops + more[..n];
    }
  }

  /** No two open streams have the same target. */
  ghost predicate DistinctTargets(t: Table) {
    forall s, r :: s in t.indices && r in t.indices && s != r ==> s.target != r.target
  }

  /** Every open stream is found by its index. */
  ghost predicate Found(t: Table) {
    forall s :: s in t.indices ==> t.indices[s] in t.streams && t.streams[t.indices[s]] == s
  }

  /** In every state of a run, open streams are found by their index - so that the two maps are inverse to
      each other - exactly if there never are two open streams to one target. */
  lemma {:induction false} FullInverseIff(ops: seq<Operation>)
    ensures (forall k :: 0 <= k <= |ops| ==> Found(Run(ops[..k])))
            <==> forall k :: 0 <= k <= |ops| ==> DistinctTargets(Run(ops[..k]))
    ensures forall k :: 0 <= k <= |ops| ==> StreamsSound(Run(ops[..k]))
  {
    forall k | 0 <= k <= |ops| ensures StreamsSound(Run(ops[..k]))
      && (Found(Run(ops[..k])) ==> DistinctTargets(Run(ops[..k]))) {
      SoundRun(ops[..k]);
      if Found(Run(ops[..k])) { FoundIsDistinct(Run(ops[..k])); }
    }
    if forall k :: 0 <= k <= |ops| ==> DistinctTargets(Run(ops[..k])) {
      forall k | 0 <= k <= |ops| ensures Found(Run(ops[..k])) {
        forall j | 0 <= j <= k ensures DistinctTargets(Run(ops[..k][..j])) { assert ops[..k][..j] == ops[..j]; }
        FullInverse(ops[..k]);
      }
    }
  }

  /** Two open streams to one target have one index, and an index leads to one stream. */
  lemma {:induction false} FoundIsDistinct(t: Table)
    requires Sound(t) && Found(t)
    ensures DistinctTargets(t)
  {
  }

  lemma {:induction false} FullInverse(ops: seq<Operation>)
    requires forall k :: 0 <= k <= |ops| ==> DistinctTargets(Run(ops[..k]))
    ensures Found(Run(ops))
  {
    if ops != [] {
      var n := |ops| - 1;
      forall k | 0 <= k <= n ensures DistinctTargets(Run(ops[..n][..k])) { assert ops[..n][..k] == ops[..k]; }
      FullInverse(ops[..n]);
      SoundRun(ops[..n]);
      assert ops[..n + 1] == ops;
      FoundStep(Run(ops[..n]), ops[n]);
    }
  }

  lemma {:induction false} FoundStep(t: Table, op: Operation)
    requires Sound(t) && Found(t) && DistinctTargets(t) && DistinctTargets(Apply(t, op))
    ensures Found(Apply(t, op))
  {
    match op {
      case Add(s) => FoundAfterAdd(t, s);
      case Remove(s) => FoundAfterRemove(t, s);
    }
  }

  lemma {:induction false} FoundAfterAdd(t: Table, s: Stream)
    requires Sound(t) && Found(t) && DistinctTargets(Added(t, s))
    ensures Found(Added(t, s))
  {
    var u := Added(t, s);
    if s !in t.indices {
      forall r | r in t.indices ensures t.indices[r] != u.indices[s] {
        assert r in u.indices && s in u.indices && r != s;
      }
    }
  }

  lemma {:induction false} FoundAfterRemove(t: Table, s: Stream)
    requires Sound(t) && Found(t)
    ensures Found(Removed(t, s))
  {
  }

  /** One of two streams to the same target is removed: the other, still open, is no longer found. */
  lemma {:induction false} SecondStreamHidesFirst()
    ensures var a, b := Stream(1, "tcp"), Stream(2, "tcp");
            var t := Run([Add(a), Add(b), Remove(b)]);
            t.indices == map[a := 1] && t.streams == map[]
  {
    var a, b := Stream(1, "tcp"), Stream(2, "tcp");
    var t1 := Added(EMPTY, a);
    assert t1 == Table(2, map[a := 1], map[1 := a], map["tcp" := 1]);
    var t2 := Added(t1, b);
    assert t2 == Table(2, map[a := 1, b := 1], map[1 := a], map["tcp" := 1]);
    var ops := [Add(a), Add(b), Remove(b)];
    assert ops[..2] == [Add(a), Add(b)] && ops[..2][..1] == [Add(a)] && ops[..2][..1][..0] == [];
    assert Run(ops[..2][..1]) == t1;
    assert Run(ops[..2]) == t2;
  }

  // ---------------------------------------------------------------- selection

  lemma {:induction false} NoneSelected(t: Table, include_: set<nat>, exclude: set<nat>)
    requires IndicesOf(t, include_, exclude) == {}
    ensures AllOf(t, include_, exclude) == {}
  {
    forall s | s in t.indices && IsValid(t.indices[s], include_, exclude)
      ensures t.indices[s] in IndicesOf(t, include_, exclude) {}
  }

  /** Selecting again by the indices selected selects the same streams, exactly if there are some or no
      stream is open at all: an empty set of indices means all. */
  lemma {:induction false} RefilterIff(t: Table, include_: set<nat>, exclude: set<nat>)
    ensures AllOf(t, IndicesOf(t, include_, exclude), {}) == AllOf(t, include_, exclude)
            <==> IndicesOf(t, include_, exclude) != {} || t.indices == map[]
  {
    var js := IndicesOf(t, include_, exclude);
    if js != {} {
      forall s | s in t.indices ensures IsValid(t.indices[s], js, {}) <==> IsValid(t.indices[s], include_, exclude) {
        if IsValid(t.indices[s], include_, exclude) { assert t.indices[s] in js; }
      }
    } else {
      NoneSelected(t, include_, exclude);
      if t.indices != map[] {
        var s :| s in t.indices;
        assert s in AllOf(t, js, {});
      }
    }
  }

  // ---------------------------------------------------------------- what the numbers are

  /** A stream is open exactly if it has been added and not removed since. */
  lemma {:induction false} OpenIff(ops: seq<Operation>, s: Stream)
    ensures s in Run(ops).indices <==>
            exists k :: 0 <= k < |ops| && ops[k] == Add(s) && forall j :: k < j < |ops| ==> ops[j] != Remove(s)
  {
    if ops != [] {
      var n := |ops| - 1;
      var before := ops[..n];
      OpenIff(before, s);
      if ops[n] == Add(s) {
        assert s in Run(ops).indices;
      } else if ops[n] == Remove(s) {
        assert s !in Run(ops).indices;
      } else {
        assert s in Run(ops).indices <==> s in Run(before).indices;
        if k :| 0 <= k < n && before[k] == Add(s) && forall j :: k < j < n ==> before[j] != Remove(s) {
          assert ops[k] == Add(s);
        }
        if k :| 0 <= k < |ops| && ops[k] == Add(s) && forall j :: k < j < |ops| ==> ops[j] != Remove(s) {
          assert before[k] == Add(s) && forall j :: k < j < n ==> before[j] == ops[j];
        }
      }
    }
  }

  /** The targets, in the order in which they have first been connected. */
  function TargetsOf(ops: seq<Operation>): seq<string> {
    if ops == [] then []
    else
      var before, op := TargetsOf(ops[..|ops| - 1]), ops[|ops| - 1];
      before + if op.Add? && op.stream.target !in before then [op.stream.target] else []
  }

  /** Every target added has a number, ... */
  lemma {:induction false} TargetIsKnownIff(ops: seq<Operation>, target: string)
    ensures target in TargetsOf(ops) <==>
            exists k :: 0 <= k < |ops| && ops[k].Add? && ops[k].stream.target == target
  {
    if ops != [] {
      var n := |ops| - 1;
      TargetIsKnownIff(ops[..n], target);
      if k :| 0 <= k < n && ops[..n][k].Add? && ops[..n][k].stream.target == target { assert ops[k].Add?; }
      if k :| 0 <= k < |ops| && ops[k].Add? && ops[k].stream.target == target {
        assert k < n ==> ops[..n][k].Add?;
      }
    }
  }

  /** ... its place in this order, counted from one. */
  lemma {:induction false} TargetsAreNumbered(ops: seq<Operation>)
    ensures var targets, t := TargetsOf(ops), Run(ops);
            && t.nextIndex == |targets| + 1
            && (forall name :: name in t.targetIndices <==> name in targets)
            && forall k :: 0 <= k < |targets| ==> t.targetIndices[targets[k]] == k + 1
  {
    if ops != [] {
      var before, op := ops[..|ops| - 1], ops[|ops| - 1];
      TargetsAreNumbered(before);
      SoundRun(before);
      assert op.Add? && op.stream in Run(before).indices ==> op.stream.target in TargetsOf(before);
      assert TargetsOf(before) + [] == TargetsOf(before);
    }
  }

  /** The indices selected are those included, or all if none is, without those excluded. */
  lemma {:induction false} IndicesSelected(t: Table, include_: set<nat>, exclude: set<nat>)
    ensures IndicesOf(t, include_, exclude) ==
            (if include_ == {} then t.indices.Values else t.indices.Values * include_) - exclude
  {
    forall i | i in t.indices.Values && IsValid(i, include_, exclude) ensures i in IndicesOf(t, include_, exclude) {
      var s :| s in t.indices && t.indices[s] == i;
    }
  }
}
