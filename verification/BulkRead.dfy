/** Reading all variables of a node at once: the answer arrives in pieces (AwaitedVariables in
    src/client/awaited.h). */
module BulkRead {
  import opened Layout
  import opened FlatMemory
  import opened Options
  import CacheSync

  /** A Variables message: cells of the node's memory from an address on. */
  datatype Message = Message(source: nat, start: nat, values: seq<int>)

  /** A negative target stands for any node. */
  predicate Relevant(target: int, m: Message) {
    target < 0 || target == m.source
  }

  predicate Covers(m: Message, cell: nat) {
    m.start <= cell < m.start + |m.values|
  }

  /** The value of a cell in the last message that has one; 0 if there is none. */
  function LastValue(ms: seq<Message>, cell: nat): int {
    if ms == [] then 0
    else
      var m := ms[|ms| - 1];
      if Covers(m, cell) then m.values[cell - m.start] else LastValue(ms[..|ms| - 1], cell)
  }

  predicate Covered(ms: seq<Message>, cell: nat) {
    exists k :: 0 <= k < |ms| && Covers(ms[k], cell)
  }

  ghost predicate AllCovered(ms: seq<Message>, size: nat) {
    forall cell: nat :: cell < size ==> Covered(ms, cell)
  }

  function LastValues(ms: seq<Message>, from: nat, size: nat): (r: seq<int>)
    ensures |r| == size && forall k :: 0 <= k < size ==> r[k] == LastValue(ms, from + k)
  {
    seq(size, k requires 0 <= k => LastValue(ms, from + k))
  }

  /** The last values received, by variable. */
  function ByName(ms: seq<Message>, table: VariablesMap): Cache {
    map name | name in table :: LastValues(ms, table[name].index, table[name].size)
  }

  /** Those of the first n messages that come from the target. */
  function FromTarget(target: int, ms: seq<Message>, n: nat): seq<Message>
    requires n <= |ms|
  {
    if n == 0 then []
    else FromTarget(target, ms, n - 1) + if Relevant(target, ms[n - 1]) then [ms[n - 1]] else []
  }

  lemma {:induction false} CoveredStep(ms: seq<Message>, m: Message, cell: nat)
    ensures Covered(ms + [m], cell) <==> Covered(ms, cell) || Covers(m, cell)
    ensures LastValue(ms + [m], cell) == if Covers(m, cell) then m.values[cell - m.start] else LastValue(ms, cell)
  {
    assert (ms + [m])[..|ms|] == ms;
    if Covered(ms, cell) {
      var k :| 0 <= k < |ms| && Covers(ms[k], cell);
      assert Covers((ms + [m])[k], cell);
    }
    if Covers(m, cell) { assert Covers((ms + [m])[|ms|], cell); }
  }

  /** Table entries stay within an array of the table's own size. */
  ghost predicate Tiled(table: VariablesMap) {
    forall name :: name in table ==> table[name].index + table[name].size <= TableSize(table)
  }

  class Reader {
    const table: VariablesMap
    const target: int
    const covered: array<bool>
    const values: array<int>
    var complete: bool
    var value: Cache
    /** The messages from the target so far. */
    ghost var received: seq<Message>

    ghost predicate Valid()
      reads this, covered, values
    {
      && covered.Length == values.Length == TableSize(table)
      && Tiled(table)
      && (forall c: nat :: c < covered.Length ==>
         covered[c] == Covered(received, c) && values[c] == LastValue(received, c))
    }

    constructor (table: VariablesMap, target: int)
      requires Tiled(table)
      ensures Valid()
      ensures fresh(covered)
      ensures fresh(values)
      ensures this.table == table
      ensures this.target == target
      ensures received == [] && !complete && value == map[]
    {
      this.table, this.target := table, target;
      var size := ComputeVariablesSize(table);
      covered := new bool[size](_ => false);
      values := new int[size](_ => 0);
      complete, value, received := false, map[], [];
    }

    method Update(m: Message) returns (r: bool)
      requires Valid() && (Relevant(target, m) ==> m.start + |m.values| <= TableSize(table))
      modifies this`received, this`value, covered, values
      ensures Valid()
      ensures received == old(received) + if Relevant(target, m) then [m] else []
      ensures r <==> Relevant(target, m) && AllCovered(received, TableSize(table))
      ensures value == if r then Refilled(old(value), ByName(received, table)) else old(value)
    {
      if target >= 0 && target != m.source {
        return false;
      }
      Receive(m);
      r := NoneMissing();
      if r {
        Collect();
      }
    }

    /** Copies the cells and marks them. */
    method Receive(m: Message)
      requires Valid() && m.start + |m.values| <= TableSize(table)
      modifies this`received, covered, values
      ensures Valid() && received == old(received) + [m]
    {
      for k := 0 to |m.values|
        invariant received == old(received)
        invariant forall c: nat :: c < values.Length ==>
                    values[c] == if m.start <= c < m.start + k then m.values[c - m.start] else old(values[c])
        invariant forall c: nat :: c < covered.Length ==> covered[c] == old(covered[c])
      {
        values[m.start + k] := m.values[k];
      }
      for i := m.start to m.start + |m.values|
        invariant received == old(received)
        invariant forall c: nat :: c < covered.Length ==> covered[c] == (m.start <= c < i || old(covered[c]))
        invariant forall c: nat :: c < values.Length ==>
                    values[c] == if Covers(m, c) then m.values[c - m.start] else old(values[c])
      {
        covered[i] := true;
      }
      received := received + [m];
      forall c: nat | c < covered.Length
        ensures covered[c] == Covered(received, c)
        ensures values[c] == LastValue(received, c)
      {
        CoveredStep(old(received), m, c);
      }
    }

    method NoneMissing() returns (r: bool)
      requires Valid()
      ensures r <==> AllCovered(received, TableSize(table))
    {
      for c := 0 to covered.Length
        invariant forall d: nat :: d < c ==> Covered(received, d)
      {
        if !covered[c] {
          return false;
        }
      }
      r := true;
    }

    method Collect()
      requires Valid()
      modifies this`value
      ensures value == Refilled(old(value), ByName(received, table))
    {
      var done: set<string> := {};
      while table.Keys - done != {}
        invariant done <= table.Keys
        invariant value.Keys == old(value).Keys + done
        invariant forall n :: n in value ==> value[n] == if n in done then ByName(received, table)[n] else old(value)[n]
        decreases table.Keys - done
      {
        var name :| name in table.Keys - done;
        var place := table[name];
        value := value[name := values[place.index..place.index + place.size]];
        done := done + {name};
      }
      forall n | n in table.Keys ensures n in done { assert n !in table.Keys - done; }
    }

    /** Messages are looked at until the read is complete. */
    method Run(ms: seq<Message>) returns (used: nat)
      requires Valid() && received == [] && !complete && value == map[]
      requires forall m :: m in ms && Relevant(target, m) ==> m.start + |m.values| <= TableSize(table)
      modifies this, covered, values
      ensures Valid()
      ensures used <= |ms|
      ensures received == FromTarget(target, ms, used)
      ensures complete ==> used > 0 && Completes(target, ms, TableSize(table), used - 1)
      ensures complete ==> value == ByName(FromTarget(target, ms, used), table)
      ensures (if complete then Some(value) else None) == Answer(target, ms, table, |ms|)
      ensures !complete ==> used == |ms| && value == map[]
      ensures forall k :: 0 <= k < used && !(complete && k == used - 1) ==> !Completes(target, ms, TableSize(table), k)
    {
      used := 0;
      while used < |ms| && !complete
        invariant used <= |ms| && Valid() && received == FromTarget(target, ms, used)
        invariant complete ==> used > 0 && Completes(target, ms, TableSize(table), used - 1)
        invariant value == if complete then ByName(received, table) else map[]
        invariant (if complete then Some(value) else None) == Answer(target, ms, table, used)
        invariant forall k :: 0 <= k < used && !(complete && k == used - 1) ==>
                  !Completes(target, ms, TableSize(table), k)
        decreases |ms| - used
      {
        complete := Update(ms[used]);
        used := used + 1;
      }
      if complete { AnswerStays(target, ms, table, used, |ms|); }
    }
  }

  /** Values for the names of the table replace those there were. */
  function Refilled(old_: Cache, new_: Cache): Cache {
    old_ + new_
  }

  /** With the k-th message the read is complete. */
  ghost predicate Completes(target: int, ms: seq<Message>, size: nat, k: nat) {
    k < |ms| && Relevant(target, ms[k]) && AllCovered(FromTarget(target, ms, k + 1), size)
  }

  /** In a non-empty memory: the read is complete as soon as every cell has been received, and not before. */
  lemma {:induction false} CompleteIff(target: int, ms: seq<Message>, size: nat, n: nat)
    requires size > 0 && n <= |ms|
    ensures AllCovered(FromTarget(target, ms, n), size) <==> exists k: nat :: k < n && Completes(target, ms, size, k)
  {
    if n == 0 {
      assert !Covered(FromTarget(target, ms, n), 0);
    } else {
      var before, m := FromTarget(target, ms, n - 1), ms[n - 1];
      CompleteIff(target, ms, size, n - 1);
      if Relevant(target, m) {
        assert FromTarget(target, ms, n) == before + [m];
        if AllCovered(before, size) { MoreCovered(before, m, size); }
        if AllCovered(before + [m], size) { assert Completes(target, ms, size, n - 1); }
      } else {
        assert FromTarget(target, ms, n) == before;
      }
    }
  }

  lemma {:induction false} MoreCovered(ms: seq<Message>, m: Message, size: nat)
    requires AllCovered(ms, size)
    ensures AllCovered(ms + [m], size)
  {
    var more := ms + [m];
    forall cell: nat | cell < size ensures Covered(more, cell) {
      CoveredStep(ms, m, cell);
    }
  }

  /** The table of a description with distinct names has the size of the whole memory, and stays within it. */
  lemma {:induction false} DescriptionTiles(vs: seq<Variable>)
    requires DistinctNames(vs)
    ensures Tiled(VariablesMapOf(vs))
    ensures TableSize(VariablesMapOf(vs)) == TotalSize(vs)
  {
    TableSizeTotal(vs, |vs|);
    forall name | name in VariablesMapOf(vs)
      ensures VariablesMapOf(vs)[name].index + VariablesMapOf(vs)[name].size <= TotalSize(vs)
    {
      TableNames(vs, |vs|, name);
      var k: nat :| k < |vs| && vs[k].name == name;
      TableIsPrefixSums(vs, |vs|, k);
      OffsetBound(vs, k);
    }
  }

  ghost predicate ReadAt(read: Cache, ms: seq<Message>, vs: seq<Variable>, k: nat) {
    k < |vs| && vs[k].name in read && read[vs[k].name] == LastValues(ms, Offset(vs, k), vs[k].size)
  }

  lemma {:induction false} EveryNameIsRead(ms: seq<Message>, vs: seq<Variable>)
    requires DistinctNames(vs)
    ensures var read := ByName(ms, VariablesMapOf(vs));
            FullLength(read, vs) && forall k: nat :: k < |vs| ==> ReadAt(read, ms, vs, k)
  {
    var read := ByName(ms, VariablesMapOf(vs));
    forall k: nat | k < |vs| ensures ReadAt(read, ms, vs, k) && |read[vs[k].name]| == vs[k].size {
      TableIsPrefixSums(vs, |vs|, k);
    }
    forall k | 0 <= k < |vs| ensures vs[k].name in read && |read[vs[k].name]| == vs[k].size {
      assert ReadAt(read, ms, vs, k);
    }
  }

  lemma {:induction false} LastValuesAdd(ms: seq<Message>, from: nat, m: nat, n: nat)
    ensures LastValues(ms, from, m) + LastValues(ms, from + m, n) == LastValues(ms, from, m + n)
  {
  }

  /** What has been read, variable after variable, is the last value received of every cell. */
  lemma {:induction false} ReadIsLastValues(ms: seq<Message>, vs: seq<Variable>, read: Cache, n: nat)
    requires n <= |vs| && FullLength(read, vs) && forall k: nat :: k < |vs| ==> ReadAt(read, ms, vs, k)
    ensures FlatUpTo(read, vs, n) == LastValues(ms, 0, Offset(vs, n))
  {
    if n > 0 {
      ReadIsLastValues(ms, vs, read, n - 1);
      assert ReadAt(read, ms, vs, n - 1);
      LastValuesAdd(ms, 0, Offset(vs, n - 1), vs[n - 1].size);
    }
  }

  /** The message carries what the memory holds. */
  ghost predicate Carries(m: Message, memory: seq<int>) {
    m.start + |m.values| <= |memory| && m.values == memory[m.start..m.start + |m.values|]
  }

  /** A memory that does not change while it is read is read as it is, whatever the order and the overlaps of
      the messages. */
  lemma {:induction false} StillMemoryIsRead(ms: seq<Message>, vs: seq<Variable>, memory: seq<int>)
    requires DistinctNames(vs) && |memory| == TotalSize(vs) && AllCovered(ms, |memory|)
    requires forall m :: m in ms ==> Carries(m, memory)
    ensures FullLength(ByName(ms, VariablesMapOf(vs)), vs)
    ensures Flat(ByName(ms, VariablesMapOf(vs)), vs) == memory
    ensures ByName(ms, VariablesMapOf(vs)) == CacheSync.ReadAll(memory, VariablesMapOf(vs))
  {
    EveryNameIsRead(ms, vs);
    ReadIsLastValues(ms, vs, ByName(ms, VariablesMapOf(vs)), |vs|);
    forall cell: nat | cell < |memory| ensures LastValue(ms, cell) == memory[cell] {
      LastIsCarried(ms, memory, cell);
    }
    DescriptionTiles(vs);
    var m := VariablesMapOf(vs);
    forall name | name in m ensures ByName(ms, m)[name] == CacheSync.Read(memory, m, name) {
      assert m[name].index + m[name].size <= |memory|;
    }
  }

  lemma {:induction false} LastIsCarried(ms: seq<Message>, memory: seq<int>, cell: nat)
    requires cell < |memory| && Covered(ms, cell) && forall m :: m in ms ==> Carries(m, memory)
    ensures LastValue(ms, cell) == memory[cell]
  {
    var n := |ms| - 1;
    assert ms == ms[..n] + [ms[n]] && ms[n] in ms;
    CoveredStep(ms[..n], ms[n], cell);
    if !Covers(ms[n], cell) { LastIsCarried(ms[..n], memory, cell); }
  }

  // ---------------------------------------------------------------- what a read listens to

  /** The message is one of those that a read of the target, or of any node, has to take. */
  ghost predicate IsOwn(target: int, m: Message) {
    target >= 0 ==> m.source == target
  }

  /** The messages of one node. */
  function OfSource(source: nat, ms: seq<Message>): seq<Message> {
    if ms == [] then []
    else
      var m := ms[|ms| - 1];
      OfSource(source, ms[..|ms| - 1]) + if m.source == source then [m] else []
  }

  /** A read of a node takes the messages of that node, in order; a read of any node takes all of them. */
  lemma {:induction false} TakenIs(target: int, ms: seq<Message>, n: nat)
    ensures n <= |ms| ==>
            FromTarget(target, ms, n) == if target < 0 then ms[..n] else OfSource(target, ms[..n])
  {
    if 0 < n <= |ms| {
      assert ms[..n][..n - 1] == ms[..n - 1];
      assert ms[..n] == ms[..n - 1] + [ms[n - 1]];
      TakenIs(target, ms, n - 1);
    }
  }

  /** Some own message among the first n has the cell. */
  ghost predicate IsSent(target: int, ms: seq<Message>, n: nat, cell: nat) {
    exists i :: 0 <= i < n <= |ms| && IsOwn(target, ms[i]) && ms[i].start <= cell < ms[i].start + |ms[i].values|
  }

  ghost predicate AllSent(target: int, ms: seq<Message>, n: nat, size: nat) {
    forall cell: nat :: cell < size ==> IsSent(target, ms, n, cell)
  }

  lemma {:induction false} SentStep(target: int, ms: seq<Message>, n: nat, cell: nat)
    requires 0 < n <= |ms|
    ensures IsSent(target, ms, n, cell) <==>
            IsSent(target, ms, n - 1, cell) || (IsOwn(target, ms[n - 1]) && Covers(ms[n - 1], cell))
  {
    if i :| 0 <= i < n && IsOwn(target, ms[i]) && Covers(ms[i], cell) {
      assert i < n - 1 ==> IsSent(target, ms, n - 1, cell);
    }
  }

  lemma {:induction false} CoveredIsSent(target: int, ms: seq<Message>, n: nat, cell: nat)
    ensures n <= |ms| ==> (Covered(FromTarget(target, ms, n), cell) <==> IsSent(target, ms, n, cell))
  {
    if 0 < n <= |ms| {
      CoveredIsSent(target, ms, n - 1, cell);
      var before := FromTarget(target, ms, n - 1);
      assert before + [] == before;
      CoveredStep(before, ms[n - 1], cell);
      SentStep(target, ms, n, cell);
    }
  }

  lemma {:induction false} AllSentStep(target: int, ms: seq<Message>, n: nat, size: nat)
    requires 0 < n <= |ms|
    ensures AllSent(target, ms, n - 1, size) ==> AllSent(target, ms, n, size)
    ensures AllSent(target, ms, n, size) && !IsOwn(target, ms[n - 1]) ==> AllSent(target, ms, n - 1, size)
  {
    var p := n - 1;
    forall cell: nat
      ensures IsSent(target, ms, p, cell) ==> IsSent(target, ms, n, cell)
      ensures IsSent(target, ms, n, cell) && !IsOwn(target, ms[p]) ==> IsSent(target, ms, p, cell)
    {
      SentStep(target, ms, n, cell);
    }
  }

  /** A message completes the read exactly if it is an own one and the own ones up to it have every cell. */
  lemma {:induction false} CompletesIff(target: int, ms: seq<Message>, size: nat, k: nat)
    ensures Completes(target, ms, size, k) <==>
            && k < |ms| && IsOwn(target, ms[k])
            && AllSent(target, ms, k + 1, size)
  {
    if k < |ms| {
      var n, taken := k + 1, FromTarget(target, ms, k + 1);
      forall cell: nat ensures Covered(taken, cell) <==> IsSent(target, ms, n, cell) {
        CoveredIsSent(target, ms, n, cell);
      }
    }
  }

  /** What a read has to show after the first n messages. */
  ghost function Answer(target: int, ms: seq<Message>, table: VariablesMap, n: nat): Option<Cache>
    requires n <= |ms|
  {
    if n == 0 then None
    else
      var before := Answer(target, ms, table, n - 1);
      if before.None? && Completes(target, ms, TableSize(table), n - 1)
      then Some(ByName(FromTarget(target, ms, n), table)) else before
  }

  lemma {:induction false} AnswerStays(target: int, ms: seq<Message>, table: VariablesMap, m: nat, n: nat)
    requires m <= n <= |ms| && Answer(target, ms, table, m).Some?
    ensures Answer(target, ms, table, n) == Answer(target, ms, table, m)
  {
    if m < n { AnswerStays(target, ms, table, m, n - 1); }
  }

  lemma {:induction false} AnswerOfPrefix(target: int, ms: seq<Message>, m: Message, table: VariablesMap, n: nat)
    requires n <= |ms|
    ensures FromTarget(target, ms + [m], n) == FromTarget(target, ms, n)
    ensures Answer(target, ms + [m], table, n) == Answer(target, ms, table, n)
  {
    if n > 0 {
      AnswerOfPrefix(target, ms, m, table, n - 1);
      assert (ms + [m])[n - 1] == ms[n - 1];
    }
  }

  /** What the other nodes send makes no difference: a read of a node shows the same, at every moment, as if its
      node's messages were the only ones. */
  lemma {:induction false} OthersMakeNoDifference(source: nat, ms: seq<Message>, table: VariablesMap)
    ensures var own := OfSource(source, ms);
            (Answer(source, ms, table, |ms|), FromTarget(source, ms, |ms|)) ==
            (Answer(source, own, table, |own|), FromTarget(source, own, |own|))
  {
    if ms != [] {
      var before, m := ms[..|ms| - 1], ms[|ms| - 1];
      var own := OfSource(source, before);
      OthersMakeNoDifference(source, before, table);
      assert before + [m] == ms;
      AnswerOfPrefix(source, before, m, table, |before|);
      AnswerOfPrefix(source, own, m, table, |own|);
      assert own + [] == own;
      assert FromTarget(source, before, |before|) + [] == FromTarget(source, before, |before|);
    }
  }

  /** Each own message carries what the memory holds. */
  ghost predicate OwnCarry(target: int, ms: seq<Message>, memory: seq<int>) {
    forall m :: m in ms && IsOwn(target, m) ==> Carries(m, memory)
  }

  /** Whatever other nodes send: if the own messages carry a memory that does not change, the read shows exactly
      this memory as soon as they have every cell, and nothing before. */
  lemma {:induction false} TargetIsRead(
    target: int, ms: seq<Message>, vs: seq<Variable>, memory: seq<int>, n: nat)
    requires n <= |ms| && DistinctNames(vs) && |memory| == TotalSize(vs) && OwnCarry(target, ms, memory)
    ensures var table := VariablesMapOf(vs);
            Answer(target, ms, table, n) ==
            if (exists k :: 0 <= k < n && IsOwn(target, ms[k])) && AllSent(target, ms, n, |memory|)
            then Some(CacheSync.ReadAll(memory, table)) else None
  {
    if n > 0 {
      var table := VariablesMapOf(vs);
      TargetIsRead(target, ms, vs, memory, n - 1);
      DescriptionTiles(vs);
      CompletesIff(target, ms, |memory|, n - 1);
      AllSentStep(target, ms, n, |memory|);
      if Completes(target, ms, |memory|, n - 1) {
        TakenAreOwn(target, ms, n);
        StillMemoryIsRead(FromTarget(target, ms, n), vs, memory);
      }
    }
  }

  lemma {:induction false} TakenAreOwn(target: int, ms: seq<Message>, n: nat)
    requires n <= |ms|
    ensures forall m :: m in FromTarget(target, ms, n) ==> m in ms && IsOwn(target, m)
  {
    if n > 0 { TakenAreOwn(target, ms, n - 1); }
  }
}
