/** The cache of named variables that pyaseba/client/node/node.py keeps of a remote flat memory:
    values as the specification sees them. */
module FlatMemory {
  import opened Layout

  type Cache = map<string, seq<int>>

  /** A run of cells that the node reports as changed. */
  datatype Area = Area(start: nat, values: seq<int>)

  /** Python's xs[j:k] = ys for 0 <= j <= k. */
  function SliceAssign(xs: seq<int>, j: nat, k: nat, ys: seq<int>): seq<int>
    requires j <= k
  {
    xs[..if j < |xs| then j else |xs|] + ys + xs[if k < |xs| then k else |xs|..]
  }

  /** Every variable is cached with all its cells. */
  ghost predicate FullLength(c: Cache, vs: seq<Variable>) {
    forall k :: 0 <= k < |vs| ==> vs[k].name in c && |c[vs[k].name]| == vs[k].size
  }

  function FlatUpTo(c: Cache, vs: seq<Variable>, n: nat): seq<int>
    requires n <= |vs| && forall k :: 0 <= k < |vs| ==> vs[k].name in c
  {
    if n == 0 then [] else FlatUpTo(c, vs, n - 1) + c[vs[n - 1].name]
  }

  /** The cached lists one after the other. */
  function Flat(c: Cache, vs: seq<Variable>): seq<int>
    requires forall k :: 0 <= k < |vs| ==> vs[k].name in c
  {
    FlatUpTo(c, vs, |vs|)
  }

  /** The memory with an area written over it; what lies beyond the memory is dropped. */
  function Overwrite(memory: seq<int>, start: nat, values: seq<int>): (r: seq<int>)
    ensures |r| == |memory|
    ensures forall p :: 0 <= p < |memory| ==> r[p] == if start <= p < start + |values| then values[p - start]
            else memory[p]
    decreases |values|
  {
    if values == [] || start >= |memory| then memory
    else Overwrite(memory[start := values[0]], start + 1, values[1..])
  }

  function OverwriteAll(memory: seq<int>, areas: seq<Area>): (r: seq<int>)
    ensures |r| == |memory|
  {
    if areas == [] then memory
    else Overwrite(OverwriteAll(memory, areas[..|areas| - 1]), areas[|areas| - 1].start, areas[|areas| - 1].values)
  }

  /** The areas before the first that starts beyond the end. */
  function Reached(areas: seq<Area>, size: nat): seq<Area> {
    if areas == [] || areas[0].start > size then [] else [areas[0]] + Reached(areas[1..], size)
  }

  predicate Overlaps(vs: seq<Variable>, k: nat, a: Area)
    requires k < |vs|
  {
    a.values != [] && Offset(vs, k) < a.start + |a.values| && a.start < Offset(vs, k) + vs[k].size
  }

  function TouchedUpTo(vs: seq<Variable>, n: nat, a: Area): seq<string>
    requires n <= |vs|
  {
    if n == 0 then [] else TouchedUpTo(vs, n - 1, a) + if Overlaps(vs, n - 1, a) then [vs[n - 1].name] else []
  }

  /** The names of the variables an area touches, in layout order. */
  function Touched(vs: seq<Variable>, a: Area): seq<string> {
    TouchedUpTo(vs, |vs|, a)
  }

  function TouchedAll(vs: seq<Variable>, areas: seq<Area>): seq<string> {
    if areas == [] then [] else TouchedAll(vs, areas[..|areas| - 1]) + Touched(vs, areas[|areas| - 1])
  }

  lemma {:induction false} FlatLength(c: Cache, vs: seq<Variable>, n: nat)
    requires FullLength(c, vs) && n <= |vs|
    ensures |FlatUpTo(c, vs, n)| == Offset(vs, n)
  {
    if n > 0 { FlatLength(c, vs, n - 1); }
  }

  /** Cell q of variable k is cell Offset(k) + q of the memory. */
  lemma {:induction false} FlatCell(c: Cache, vs: seq<Variable>, n: nat, k: nat, q: nat)
    requires FullLength(c, vs) && k < n <= |vs| && q < vs[k].size
    ensures Offset(vs, k) + q < |FlatUpTo(c, vs, n)|
    ensures FlatUpTo(c, vs, n)[Offset(vs, k) + q] == c[vs[k].name][q]
  {
    FlatLength(c, vs, n - 1);
    if k < n - 1 {
      FlatCell(c, vs, n - 1, k, q);
    }
  }

  /** Reading a variable is reading its interval. */
  lemma {:induction false} SliceOfFlat(c: Cache, vs: seq<Variable>, k: nat)
    requires FullLength(c, vs) && k < |vs|
    ensures Offset(vs, k) + vs[k].size <= |Flat(c, vs)|
    ensures Flat(c, vs)[Offset(vs, k)..Offset(vs, k) + vs[k].size] == c[vs[k].name]
  {
    FlatLength(c, vs, |vs|);
    OffsetBound(vs, k);
    forall q | 0 <= q < vs[k].size ensures Flat(c, vs)[Offset(vs, k) + q] == c[vs[k].name][q] {
      FlatCell(c, vs, |vs|, k, q);
    }
  }

  /** Writing part of one variable is writing its cells, and no others. */
  lemma {:induction false} WriteVariable(c: Cache, vs: seq<Variable>, k: nat, j: nat, ys: seq<int>)
    requires FullLength(c, vs) && DistinctNames(vs) && k < |vs| && j + |ys| <= vs[k].size
    ensures var d := c[vs[k].name := Overwrite(c[vs[k].name], j, ys)];
            FullLength(d, vs) && Flat(d, vs) == Overwrite(Flat(c, vs), Offset(vs, k) + j, ys)
  {
    var d := c[vs[k].name := Overwrite(c[vs[k].name], j, ys)];
    assert FullLength(d, vs);
    FlatLength(c, vs, |vs|);
    FlatLength(d, vs, |vs|);
    var w := Overwrite(Flat(c, vs), Offset(vs, k) + j, ys);
    forall p | 0 <= p < TotalSize(vs) ensures Flat(d, vs)[p] == w[p] {
      CellOwner(vs, |vs|, p);
      var i: nat :| HasCell(vs, i, p);
      assert HasCell(vs, i, p);
      FlatCell(c, vs, |vs|, i, p - Offset(vs, i));
      FlatCell(d, vs, |vs|, i, p - Offset(vs, i));
      if i < k { DisjointVariables(vs, i, k); }
      if k < i { DisjointVariables(vs, k, i); }
    }
  }

  /** Within the list, slice assignment is overwriting. */
  lemma {:induction false} SliceIsOverwrite(xs: seq<int>, j: nat, ys: seq<int>)
    requires j + |ys| <= |xs|
    ensures SliceAssign(xs, j, j + |ys|, ys) == Overwrite(xs, j, ys)
  {
  }

  function Shorter(n: nat, m: nat): nat {
    if n < m then n else m
  }

  /** Reading back where something has been written: the value as far as it goes, then what was there before. */
  lemma {:induction false} OverwrittenSlice(memory: seq<int>, i: nat, size: nat, ys: seq<int>)
    requires i + size <= |memory|
    ensures var n := Shorter(|ys|, size);
            Overwrite(memory, i, ys)[i..i + size] == ys[..n] + memory[i..i + size][n..]
  {
  }

  /** Reading where nothing has been written. */
  lemma {:induction false} UntouchedSlice(memory: seq<int>, i: nat, ys: seq<int>, j: nat, size: nat)
    requires j + size <= |memory| && (j + size <= i || i + |ys| <= j)
    ensures Overwrite(memory, i, ys)[j..j + size] == memory[j..j + size]
  {
  }

  /** Variables from k on begin after the area: they are not touched. */
  lemma {:induction false} TouchedPrefix(vs: seq<Variable>, n: nat, k: nat, a: Area)
    requires k <= n <= |vs| && (k < n ==> Offset(vs, k) >= a.start + |a.values|)
    ensures TouchedUpTo(vs, n, a) == TouchedUpTo(vs, k, a)
  {
    if k < n {
      OffsetMonotone(vs, k, n - 1);
      TouchedPrefix(vs, n - 1, k, a);
    }
  }

  /** Variables before k end before the area: nothing is touched yet. */
  lemma {:induction false} TouchedNone(vs: seq<Variable>, k: nat, a: Area)
    requires k <= |vs| && (Offset(vs, k) <= a.start || a.values == [])
    ensures TouchedUpTo(vs, k, a) == []
  {
    if k > 0 {
      TouchedNone(vs, k - 1, a);
    }
  }

  // ---------------------------------------------------------------- areas in any order

  lemma {:induction false} ReachedBegins(areas: seq<Area>, size: nat, c: nat)
    requires c <= |areas| && forall k :: 0 <= k < c ==> areas[k].start <= size
    ensures c <= |Reached(areas, size)|
    ensures Reached(areas, size)[..c] == areas[..c]
  {
    if c > 0 {
      ReachedBegins(areas[1..], size, c - 1);
      assert areas[..c] == [areas[0]] + areas[1..][..c - 1];
      assert Reached(areas, size)[..c] == [areas[0]] + Reached(areas[1..], size)[..c - 1];
    }
  }

  lemma {:induction false} ReachedStops(areas: seq<Area>, size: nat, c: nat)
    requires c <= |areas| && forall k :: 0 <= k < c ==> areas[k].start <= size
    requires c < |areas| ==> areas[c].start > size
    ensures Reached(areas, size) == areas[..c]
  {
    if c > 0 {
      ReachedStops(areas[1..], size, c - 1);
      assert areas[..c] == [areas[0]] + areas[1..][..c - 1];
    }
  }

  ghost predicate Ascending(areas: seq<Area>) {
    forall j, k :: 0 <= j < k < |areas| ==> areas[j].start <= areas[k].start
  }

  /** After an area that starts beyond the end, none has a cell within the memory. */
  ghost predicate NothingAfterEnd(areas: seq<Area>, size: nat) {
    forall j, k :: 0 <= j < k < |areas| && areas[j].start > size ==> areas[k].start >= size || areas[k].values == []
  }

  /** Areas with the same starts and lengths. */
  ghost predicate SameShape(areas: seq<Area>, others: seq<Area>) {
    |others| == |areas|
    && forall k :: 0 <= k < |areas| ==> others[k].start == areas[k].start && |others[k].values| == |areas[k].values|
  }

  /** Leaving the loop at the first area beyond the end makes no difference. */
  ghost predicate LosesNothing(memory: seq<int>, areas: seq<Area>) {
    OverwriteAll(memory, Reached(areas, |memory|)) == OverwriteAll(memory, areas)
  }

  /** Leaving the loop at the first area beyond the end loses nothing, whatever the memory and the values,
      exactly if after such an area there is none with a cell within the memory. */
  lemma {:induction false} LosesNothingIff(areas: seq<Area>, size: nat)
    ensures (forall memory, others :: |memory| == size && SameShape(areas, others) ==> LosesNothing(memory, others))
            <==> NothingAfterEnd(areas, size)
  {
    if NothingAfterEnd(areas, size) {
      forall memory, others | |memory| == size && SameShape(areas, others) ensures LosesNothing(memory, others) {
        TailIsLost(memory, others);
      }
    } else {
      var j, k :| 0 <= j < k < |areas| && areas[j].start > size && areas[k].start < size && areas[k].values != [];
      CellIsLost(areas, size, j, k);
    }
  }

  /** Ascending areas lose nothing. */
  lemma {:induction false} AscendingLosesNothing(memory: seq<int>, areas: seq<Area>)
    requires Ascending(areas)
    ensures LosesNothing(memory, areas)
  {
    LosesNothingIff(areas, |memory|);
    assert SameShape(areas, areas);
  }

  /** The areas reached are those before the first that starts beyond the end. */
  lemma {:induction false} ReachedIs(areas: seq<Area>, size: nat)
    ensures var c := |Reached(areas, size)|;
            && c <= |areas|
            && Reached(areas, size) == areas[..c]
            && (c < |areas| ==> areas[c].start > size)
            && forall k :: 0 <= k < c ==> areas[k].start <= size
  {
    if areas != [] && areas[0].start <= size {
      ReachedIs(areas[1..], size);
      var c := |Reached(areas, size)|;
      assert areas[..c] == [areas[0]] + areas[1..][..c - 1];
      assert forall k :: 0 < k < |areas| ==> areas[k] == areas[1..][k - 1];
    }
  }

  lemma {:induction false} TailIsLost(memory: seq<int>, areas: seq<Area>)
    requires NothingAfterEnd(areas, |memory|)
    ensures LosesNothing(memory, areas)
  {
    ReachedIs(areas, |memory|);
    var c := |Reached(areas, |memory|)|;
    TailHasNoCell(memory, areas, c);
  }

  lemma {:induction false} TailHasNoCell(memory: seq<int>, areas: seq<Area>, c: nat)
    requires c <= |areas| && forall k :: c <= k < |areas| ==> areas[k].start >= |memory| || areas[k].values == []
    ensures OverwriteAll(memory, areas[..c]) == OverwriteAll(memory, areas)
  {
    if c == |areas| {
      assert areas[..c] == areas;
    } else {
      var n := |areas| - 1;
      TailHasNoCell(memory, areas[..n], c);
      assert areas[..n][..c] == areas[..c];
    }
  }

  function Filled(areas: seq<Area>, k: nat, x: int): Area
    requires k < |areas|
  {
    Area(areas[k].start, seq(|areas[k].values|, _ => x))
  }

  /** The same areas, zero up to c and one from there on. */
  function Marked(areas: seq<Area>, c: nat): (r: seq<Area>)
    ensures |r| == |areas| && forall k :: 0 <= k < |areas| ==> r[k] == Filled(areas, k, if k < c then 0 else 1)
  {
    seq(|areas|, k requires 0 <= k < |areas| => Filled(areas, k, if k < c then 0 else 1))
  }

  lemma {:induction false} CellIsLost(areas: seq<Area>, size: nat, j: nat, k: nat)
    requires j < k < |areas| && areas[j].start > size && areas[k].start < size && areas[k].values != []
    ensures exists memory, others :: |memory| == size && SameShape(areas, others) && !LosesNothing(memory, others)
  {
    ReachedIs(areas, size);
    var c := |Reached(areas, size)|;
    var memory, others := seq(size, _ => 0), Marked(areas, c);
    ReachedIs(others, size);
    var d := |Reached(others, size)|;
    assert others[c].start == areas[c].start && c == d;
    var cell := areas[k].start;
    MarkedCell(areas, c, memory, c, cell);
    MarkedCell(areas, c, memory, |areas|, cell);
    assert others[..|areas|] == others;
    assert !LosesNothing(memory, others);
  }

  /** A cell is one exactly if an area from c on covers it. */
  lemma {:induction false} MarkedCell(areas: seq<Area>, c: nat, memory: seq<int>, n: nat, cell: nat)
    requires n <= |areas| && cell < |memory| && forall p :: 0 <= p < |memory| ==> memory[p] == 0
    ensures n <= c ==> OverwriteAll(memory, Marked(areas, c)[..n])[cell] == 0
    ensures forall k :: c <= k < n && areas[k].start <= cell < areas[k].start + |areas[k].values| ==>
              OverwriteAll(memory, Marked(areas, c)[..n])[cell] == 1
  {
    if n > 0 {
      var others := Marked(areas, c);
      MarkedCell(areas, c, memory, n - 1, cell);
      assert others[..n][..n - 1] == others[..n - 1] && others[..n][n - 1] == others[n - 1];
    }
  }

  /** Out of order, an area can be lost: the second one here is within the memory. */
  lemma {:induction false} DescendingLosesAnArea()
    ensures var memory, areas := [0], [Area(2, [5]), Area(0, [7])];
            OverwriteAll(memory, Reached(areas, |memory|)) == [0] && OverwriteAll(memory, areas) == [7]
  {
  }
}
