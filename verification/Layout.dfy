/** Named variables laid out one after the other in a flat array of cells.
    Every component that names cells (the node that allocates them, the client that is told about
    them, the cache on top of the client) uses this vocabulary. */
module Layout {

  datatype Variable = Variable(name: string, size: nat)

  /** Address and size of a variable. */
  datatype Place = Place(index: nat, size: nat)

  type VariablesMap = map<string, Place>

  /** First cell of the k-th variable: the sum of the sizes before it. */
  function Offset(vs: seq<Variable>, k: nat): nat
    requires k <= |vs|
  {
    if k == 0 then 0 else Offset(vs, k - 1) + vs[k - 1].size
  }

  function TotalSize(vs: seq<Variable>): nat {
    Offset(vs, |vs|)
  }

  ghost predicate DistinctNames(vs: seq<Variable>) {
    forall j, k :: 0 <= j < k < |vs| ==> vs[j].name != vs[k].name
  }

  ghost predicate PositiveSizes(vs: seq<Variable>) {
    forall k :: 0 <= k < |vs| ==> vs[k].size > 0
  }

  function TableUpTo(vs: seq<Variable>, k: nat): VariablesMap
    requires k <= |vs|
  {
    if k == 0 then map[] else TableUpTo(vs, k - 1)[vs[k - 1].name := Place(Offset(vs, k - 1), vs[k - 1].size)]
  }

  /** The table Aseba's TargetDescription::getVariablesMap builds: offsets in declaration order,
      a later variable replacing an earlier one of the same name. */
  function VariablesMapOf(vs: seq<Variable>): VariablesMap {
    TableUpTo(vs, |vs|)
  }

  lemma {:induction false} OffsetMonotone(vs: seq<Variable>, j: nat, k: nat)
    requires j <= k <= |vs|
    ensures Offset(vs, j) <= Offset(vs, k)
    ensures PositiveSizes(vs) && j < k ==> Offset(vs, j) < Offset(vs, k)
  {
    if j < k {
      OffsetMonotone(vs, j, k - 1);
    }
  }

  lemma {:induction false} OffsetBound(vs: seq<Variable>, k: nat)
    requires k < |vs|
    ensures Offset(vs, k) + vs[k].size <= TotalSize(vs)
  {
    OffsetMonotone(vs, k + 1, |vs|);
  }

  /** Offsets and tables depend only on the variables before. */
  lemma {:induction false} PrefixAgrees(vs: seq<Variable>, ws: seq<Variable>, k: nat)
    requires k <= |vs| && k <= |ws| && vs[..k] == ws[..k]
    ensures Offset(vs, k) == Offset(ws, k)
    ensures TableUpTo(vs, k) == TableUpTo(ws, k)
  {
    if k > 0 {
      assert vs[k - 1] == vs[..k][k - 1] == ws[..k][k - 1] == ws[k - 1];
      assert vs[..k - 1] == vs[..k][..k - 1] == ws[..k][..k - 1] == ws[..k - 1];
      PrefixAgrees(vs, ws, k - 1);
    }
  }

  /** Variables appended come after the others. */
  lemma {:induction false} OffsetAppend(vs: seq<Variable>, ws: seq<Variable>, k: nat)
    requires k <= |ws|
    ensures Offset(vs + ws, |vs| + k) == TotalSize(vs) + Offset(ws, k)
  {
    if k == 0 {
      assert (vs + ws)[..|vs|] == vs[..|vs|];
      PrefixAgrees(vs + ws, vs, |vs|);
    } else {
      OffsetAppend(vs, ws, k - 1);
    }
  }

  lemma {:induction false} TableSnoc(vs: seq<Variable>, v: Variable)
    ensures TotalSize(vs + [v]) == TotalSize(vs) + v.size
    ensures VariablesMapOf(vs + [v]) == VariablesMapOf(vs)[v.name := Place(TotalSize(vs), v.size)]
  {
    assert (vs + [v])[..|vs|] == vs[..|vs|];
    PrefixAgrees(vs + [v], vs, |vs|);
  }

  /** The table has an entry for the declared names and no other. */
  lemma {:induction false} TableNames(vs: seq<Variable>, n: nat, name: string)
    requires n <= |vs|
    ensures name in TableUpTo(vs, n) <==> exists k :: 0 <= k < n && vs[k].name == name
  {
    if n > 0 {
      TableNames(vs, n - 1, name);
    }
  }

  /** Distinct names: the entry of the k-th name is (prefix sum of the sizes, size). */
  lemma {:induction false} TableIsPrefixSums(vs: seq<Variable>, n: nat, k: nat)
    requires DistinctNames(vs) && k < n <= |vs|
    ensures vs[k].name in TableUpTo(vs, n)
    ensures TableUpTo(vs, n)[vs[k].name] == Place(Offset(vs, k), vs[k].size)
  {
    if k < n - 1 {
      TableIsPrefixSums(vs, n - 1, k);
    }
  }

  /** The cell is one of variable k. */
  ghost predicate HasCell(vs: seq<Variable>, k: nat, cell: nat) {
    k < |vs| && Offset(vs, k) <= cell < Offset(vs, k) + vs[k].size
  }

  /** Every cell below the total size belongs to exactly one variable. */
  lemma {:induction false} CellOwner(vs: seq<Variable>, n: nat, cell: nat)
    requires n <= |vs| && cell < Offset(vs, n)
    ensures exists k: nat :: k < n && HasCell(vs, k, cell)
  {
    if cell < Offset(vs, n - 1) {
      CellOwner(vs, n - 1, cell);
      var k: nat :| k < n - 1 && HasCell(vs, k, cell);
      assert k < n;
    } else {
      assert HasCell(vs, n - 1, cell);
    }
  }

  /** Different variables never share a cell. */
  lemma {:induction false} DisjointVariables(vs: seq<Variable>, j: nat, k: nat)
    requires j < k < |vs|
    ensures Offset(vs, j) + vs[j].size <= Offset(vs, k)
  {
    OffsetMonotone(vs, j + 1, k);
  }

  /** Sum of the sizes a table mentions, in no particular order. */
  ghost function TableSize(m: VariablesMap): nat
    decreases m.Keys
  {
    if m == map[] then 0 else
      var name :| name in m;
      assert (m - {name}).Keys == m.Keys - {name};
      m[name].size + TableSize(m - {name})
  }

  /** The order in which a table is summed is irrelevant. */
  lemma {:induction false} TableSizeRemove(m: VariablesMap, name: string)
    requires name in m
    ensures TableSize(m) == m[name].size + TableSize(m - {name})
    decreases m.Keys
  {
    var pick :| pick in m && TableSize(m) == m[pick].size + TableSize(m - {pick});
    if pick != name {
      assert (m - {pick}).Keys < m.Keys;
      TableSizeRemove(m - {pick}, name);
      assert (m - {name}).Keys < m.Keys;
      TableSizeRemove(m - {name}, pick);
      assert m - {pick} - {name} == m - {name} - {pick};
    }
  }

  /** A table built from distinct names has the size of the whole array: it tiles [0, TotalSize). */
  lemma {:induction false} TableSizeTotal(vs: seq<Variable>, n: nat)
    requires DistinctNames(vs) && n <= |vs|
    ensures TableSize(TableUpTo(vs, n)) == Offset(vs, n)
  {
    if n > 0 {
      var m, before, name := TableUpTo(vs, n), TableUpTo(vs, n - 1), vs[n - 1].name;
      TableSizeTotal(vs, n - 1);
      TableNames(vs, n - 1, name);
      assert m - {name} == before;
      TableSizeRemove(m, name);
    }
  }

  /** compute_variables_size: a loop over the table. */
  method ComputeVariablesSize(m: VariablesMap) returns (c: nat)
    ensures c == TableSize(m)
  {
    c := 0;
    var rest := m;
    while rest != map[]
      invariant c + TableSize(rest) == TableSize(m)
      decreases rest.Keys
    {
      var name :| name in rest;
      TableSizeRemove(rest, name);
      c := c + rest[name].size;
      assert (rest - {name}).Keys < rest.Keys;
      rest := rest - {name};
    }
  }

  /** variables_by_index for a table: which variable starts at a cell. */
  ghost predicate IsIndexOf(byIndex: map<nat, Variable>, m: VariablesMap) {
    && (forall i :: i in byIndex ==>
          byIndex[i].name in m && m[byIndex[i].name] == Place(i, byIndex[i].size))
    && (forall name :: name in m ==> m[name].index in byIndex)
  }

  /** The rebuild loop after a table has changed. Variables of size zero may share a cell; which of
      them the index keeps is left to the order of the loop. */
  method BuildIndex(m: VariablesMap) returns (byIndex: map<nat, Variable>)
    ensures IsIndexOf(byIndex, m)
  {
    byIndex := map[];
    var rest := m.Keys;
    while rest != {}
      invariant rest <= m.Keys
      invariant forall i :: i in byIndex ==>
                  byIndex[i].name in m && m[byIndex[i].name] == Place(i, byIndex[i].size)
      invariant forall name :: name in m.Keys - rest ==> m[name].index in byIndex
      decreases rest
    {
      var name :| name in rest;
      byIndex := byIndex[m[name].index := Variable(name, m[name].size)];
      rest := rest - {name};
    }
  }

  function IndexUpTo(vs: seq<Variable>, n: nat): map<nat, Variable>
    requires n <= |vs|
  {
    if n == 0 then map[] else IndexUpTo(vs, n - 1)[Offset(vs, n - 1) := vs[n - 1]]
  }

  /** The index that holds each declared variable at its offset, and nothing else. */
  function IndexOf(vs: seq<Variable>): map<nat, Variable> {
    IndexUpTo(vs, |vs|)
  }

  lemma {:induction false} IndexHolds(vs: seq<Variable>, n: nat, k: nat)
    requires PositiveSizes(vs) && k < n <= |vs|
    ensures Offset(vs, k) in IndexUpTo(vs, n)
    ensures IndexUpTo(vs, n)[Offset(vs, k)] == vs[k]
  {
    if k < n - 1 {
      OffsetMonotone(vs, k, n - 1);
      IndexHolds(vs, n - 1, k);
    }
  }

  /** Variable k is v and begins at the address. */
  ghost predicate Begins(vs: seq<Variable>, k: nat, i: nat, v: Variable) {
    k < |vs| && i == Offset(vs, k) && v == vs[k]
  }

  lemma {:induction false} IndexHoldsOnly(vs: seq<Variable>, n: nat, i: nat)
    requires n <= |vs| && i in IndexUpTo(vs, n)
    ensures exists k: nat :: k < n && Begins(vs, k, i, IndexUpTo(vs, n)[i])
  {
    if i == Offset(vs, n - 1) {
      assert Begins(vs, n - 1, i, IndexUpTo(vs, n)[i]);
    } else {
      IndexHoldsOnly(vs, n - 1, i);
      var k: nat :| k < n - 1 && Begins(vs, k, i, IndexUpTo(vs, n - 1)[i]);
      assert k < n;
    }
  }

  lemma {:induction false} IndexEntry(vs: seq<Variable>, byIndex: map<nat, Variable>, i: nat)
    requires DistinctNames(vs) && IsIndexOf(byIndex, VariablesMapOf(vs)) && i in byIndex
    ensures exists k: nat :: Begins(vs, k, i, byIndex[i])
  {
    TableNames(vs, |vs|, byIndex[i].name);
    var k: nat :| k < |vs| && vs[k].name == byIndex[i].name;
    TableIsPrefixSums(vs, |vs|, k);
    assert Begins(vs, k, i, byIndex[i]);
  }

  /** Positive sizes and distinct names: the index rebuilt from a description's table is exact. */
  lemma {:induction false} IndexIsExact(vs: seq<Variable>, byIndex: map<nat, Variable>)
    requires DistinctNames(vs) && PositiveSizes(vs) && IsIndexOf(byIndex, VariablesMapOf(vs))
    ensures byIndex == IndexOf(vs)
  {
    forall i | i in IndexOf(vs) ensures i in byIndex && byIndex[i] == IndexOf(vs)[i] {
      IndexHoldsOnly(vs, |vs|, i);
      var k: nat :| Begins(vs, k, i, IndexOf(vs)[i]);
      assert Begins(vs, k, i, IndexOf(vs)[i]);
      TableIsPrefixSums(vs, |vs|, k);
      IndexEntry(vs, byIndex, i);
      var j: nat :| Begins(vs, j, i, byIndex[i]);
      if j < k { OffsetMonotone(vs, j, k); } else { OffsetMonotone(vs, k, j); }
    }
    forall i | i in byIndex ensures i in IndexOf(vs) {
      IndexEntry(vs, byIndex, i);
      var k: nat :| Begins(vs, k, i, byIndex[i]);
      IndexHolds(vs, |vs|, k);
    }
  }
}
