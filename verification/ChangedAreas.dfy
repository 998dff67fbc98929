/** What `_set_changes` of pyaseba/client/node/node.py does to the cached lists of values, which the dictionaries of a
    node object may share. */
module ChangedAreas {
  import opened Layout
  import opened FlatMemory
  import Int16Cells
  import opened Options
  import CacheSync

  /** Variable p owns the cell; the cell after the last belongs to the end of the layout. */
  ghost predicate Owns(vs: seq<Variable>, p: nat, cell: nat) {
    if p < |vs| then HasCell(vs, p, cell) else p == |vs| && cell == TotalSize(vs)
  }

  /** The names for which two dictionaries hold one and the same list. */
  datatype Ties = Ties(currentPrev: set<string>, currentNext: set<string>, prevNext: set<string>)

  const UNTIED := Ties({}, {}, {})

  /** What one pass over an area changes: the current lists, the previous and the pending ones, the names reported,
      and whether nothing has been raised. */
  datatype Lists = Lists(values: Cache, prev: Cache, next: Cache, ties: Ties, names: seq<string>, ok: bool)

  ghost predicate Whole(s: Lists, vs: seq<Variable>) {
    FullLength(s.values, vs) && FullLength(s.prev, vs)
  }

  /** Every variable has a list of values, of whatever length, among the current and the previous ones. */
  ghost predicate Cached(s: Lists, vs: seq<Variable>) {
    forall k :: 0 <= k < |vs| ==> vs[k].name in s.values && vs[k].name in s.prev
  }

  /** One list has one value, and two lists that are the same as a third are the same. */
  ghost predicate Consistent(s: Lists) {
    forall name ::
      && (name in s.ties.currentPrev ==> name in s.values && name in s.prev && s.values[name] == s.prev[name])
      && (name in s.ties.currentNext ==> name in s.values && name in s.next && s.values[name] == s.next[name])
      && (name in s.ties.prevNext ==> name in s.prev && name in s.next && s.prev[name] == s.next[name])
      && (name in s.ties.currentNext && name in s.ties.prevNext ==> name in s.ties.currentPrev)
      && (name in s.ties.currentPrev && name in s.ties.currentNext ==> name in s.ties.prevNext)
      && (name in s.ties.currentPrev && name in s.ties.prevNext ==> name in s.ties.currentNext)
  }

  function Assigned(xs: seq<int>, j: nat, ys: seq<int>): seq<int> {
    SliceAssign(xs, j, j + |ys|, ys)
  }

  /** The slice is assigned to the current list, and once more if that is the previous one, too. */
  function NewCurrent(s: Lists, name: string, j: nat, ys: seq<int>): seq<int>
    requires name in s.values
  {
    var once := Assigned(s.values[name], j, ys);
    if name in s.prev && name in s.ties.currentPrev then Assigned(once, j, ys) else once
  }

  function NewPrev(s: Lists, name: string, j: nat, ys: seq<int>): seq<int>
    requires name in s.values && name in s.prev
  {
    if name in s.ties.currentPrev then NewCurrent(s, name, j, ys) else Assigned(s.prev[name], j, ys)
  }

  /** The slice is assigned to the current list, then to the previous one. A pending list that is one of them
      changes with it. A name without a list raises an exception. */
  function WriteBoth(s: Lists, name: string, j: nat, ys: seq<int>): Lists {
    var first := name in s.values;
    var both := first && name in s.prev;
    Lists(if first then s.values[name := NewCurrent(s, name, j, ys)] else s.values,
          if both then s.prev[name := NewPrev(s, name, j, ys)] else s.prev,
          if both && name in s.ties.prevNext then s.next[name := NewPrev(s, name, j, ys)]
          else if first && name in s.ties.currentNext then s.next[name := NewCurrent(s, name, j, ys)]
          else s.next,
          s.ties, s.names + [name], both)
  }

  /** How many of n cells, the first of which is given, lie in variable p. */
  function Chunk(vs: seq<Variable>, p: nat, cell: nat, n: nat): nat
    requires p < |vs|
  {
    var end := Offset(vs, p) + vs[p].size;
    if end <= cell then 0 else if end - cell <= n then end - cell else n
  }

  /** Values for the list of a variable, from its place j on. */
  datatype Piece = Piece(name: string, j: nat, ys: seq<int>)

  /** Values from a cell of variable p on, variable after variable. */
  function Pieces(vs: seq<Variable>, p: nat, cell: nat, values: seq<int>): seq<Piece>
    decreases |vs| - p
  {
    if p >= |vs| || cell < Offset(vs, p) then []
    else
      var l := Chunk(vs, p, cell, |values|);
      if l == 0 then []
      else
        var rest := Pieces(vs, p + 1, Offset(vs, p) + vs[p].size, values[l..]);
        [Piece(vs[p].name, cell - Offset(vs, p), values[..l])] + rest
  }

  /** Up to the first exception. */
  function WriteAll(s: Lists, ps: seq<Piece>): Lists
    decreases |ps|
  {
    if !s.ok || ps == [] then s else WriteAll(WriteBoth(s, ps[0].name, ps[0].j, ps[0].ys), ps[1..])
  }

  /** Stores values from a cell of variable p on. A node without variables makes an assertion fail. */
  function Store(s: Lists, vs: seq<Variable>, p: nat, cell: nat, values: seq<int>): Lists {
    if s.ok && values != [] && vs == [] then s.(ok := false) else WriteAll(s, Pieces(vs, p, cell, values))
  }

  function Names(ps: seq<Piece>): seq<string> {
    if ps == [] then [] else [ps[0].name] + Names(ps[1..])
  }

  /** In lists of full length it makes no difference how often a slice is assigned. */
  lemma {:induction false} WriteBothOverwrites(s: Lists, vs: seq<Variable>, p: nat, j: nat, ys: seq<int>)
    requires Whole(s, vs) && Consistent(s) && p < |vs| && j + |ys| <= vs[p].size
    ensures var name, t := vs[p].name, WriteBoth(s, vs[p].name, j, ys);
            && t.values == s.values[name := Overwrite(s.values[name], j, ys)]
            && t.prev == s.prev[name := Overwrite(s.prev[name], j, ys)]
    ensures Whole(WriteBoth(s, vs[p].name, j, ys), vs)
  {
    var name := vs[p].name;
    var once := Overwrite(s.values[name], j, ys);
    SliceIsOverwrite(s.values[name], j, ys);
    SliceIsOverwrite(s.prev[name], j, ys);
    SliceIsOverwrite(once, j, ys);
    assert Overwrite(once, j, ys) == once;
  }

  /** The same names have lists, and the same lists are shared. */
  ghost predicate Keeps(s: Lists, t: Lists) {
    && Consistent(t)
    && (t.ties, t.values.Keys, t.prev.Keys, t.next.Keys) == (s.ties, s.values.Keys, s.prev.Keys, s.next.Keys)
  }

  lemma {:induction false} WriteBothKeeps(s: Lists, name: string, j: nat, ys: seq<int>)
    requires Consistent(s)
    ensures Keeps(s, WriteBoth(s, name, j, ys))
    ensures WriteBoth(s, name, j, ys).names == s.names + [name]
  {
    var t := WriteBoth(s, name, j, ys);
    assert t.values.Keys == s.values.Keys && t.prev.Keys == s.prev.Keys && t.next.Keys == s.next.Keys;
  }

  /** One turn of the loop. */
  lemma {:induction false} StoreStep(s: Lists, vs: seq<Variable>, p: nat, cell: nat, end: nat, values: seq<int>, l: nat)
    requires s.ok && p < |vs| && Owns(vs, p, cell) && end == Offset(vs, p) + vs[p].size && PositiveSizes(vs)
    requires values != [] && l == if end - cell <= |values| then end - cell else |values|
    ensures l > 0 && Owns(vs, p + 1, end)
    ensures Store(WriteBoth(s, vs[p].name, cell - Offset(vs, p), values[..l]), vs, p + 1, end, values[l..]) ==
            Store(s, vs, p, cell, values)
  {
    assert l == Chunk(vs, p, cell, |values|);
  }

  ghost function StoreAll(s: Lists, vs: seq<Variable>, areas: seq<Area>): Lists
    requires forall a :: a in areas ==> a.start <= TotalSize(vs)
  {
    if areas == [] then s
    else
      var a := areas[|areas| - 1];
      Store(StoreAll(s, vs, areas[..|areas| - 1]), vs, Owner(vs, a.start), a.start, a.values)
  }

  lemma {:induction false} StoreAllStep(s: Lists, vs: seq<Variable>, areas: seq<Area>, c: nat)
    requires c < |areas| && forall k :: 0 <= k <= c ==> areas[k].start <= TotalSize(vs)
    ensures StoreAll(s, vs, areas[..c + 1]) ==
            Store(StoreAll(s, vs, areas[..c]), vs, Owner(vs, areas[c].start), areas[c].start, areas[c].values)
  {
    assert areas[..c + 1][..c] == areas[..c];
  }

  /** After an exception nothing more happens. */
  lemma {:induction false} StoreAllEnds(s: Lists, vs: seq<Variable>, areas: seq<Area>, c: nat)
    requires c <= |areas| && forall k :: 0 <= k < |areas| ==> areas[k].start <= TotalSize(vs)
    requires !StoreAll(s, vs, areas[..c]).ok
    ensures StoreAll(s, vs, areas) == StoreAll(s, vs, areas[..c])
  {
    if c < |areas| {
      var n := |areas| - 1;
      assert areas[..n][..c] == areas[..c];
      StoreAllEnds(s, vs, areas[..n], c);
    } else {
      assert areas[..c] == areas;
    }
  }

  lemma {:induction false} ReachedBound(areas: seq<Area>, size: nat)
    ensures forall a :: a in Reached(areas, size) ==> a.start <= size
  {
    if areas != [] && areas[0].start <= size { ReachedBound(areas[1..], size); }
  }

  lemma {:induction false} WriteAllKeeps(s: Lists, ps: seq<Piece>)
    requires Consistent(s)
    ensures Keeps(s, WriteAll(s, ps))
    decreases |ps|
  {
    if s.ok && ps != [] {
      var t := WriteBoth(s, ps[0].name, ps[0].j, ps[0].ys);
      WriteBothKeeps(s, ps[0].name, ps[0].j, ps[0].ys);
      WriteAllKeeps(t, ps[1..]);
    }
  }

  /** Do all these names have a current and a previous list? */
  ghost predicate Listed(s: Lists, names: seq<string>) {
    forall name :: name in names ==> name in s.values && name in s.prev
  }

  /** From s to t these names have been gone through, up to the first without a list. */
  ghost predicate Reports(s: Lists, t: Lists, names: seq<string>) {
    (t.ok <==> s.ok && Listed(s, names)) && (t.ok ==> t.names == s.names + names)
  }

  lemma {:induction false} ReportsOn(s: Lists, t: Lists, u: Lists, names: seq<string>, more: seq<string>)
    requires Keeps(s, t) && Reports(s, t, names) && Reports(t, u, more)
    ensures Reports(s, u, names + more)
  {
    assert forall name :: name in names + more <==> name in names || name in more;
    assert Listed(t, more) <==> Listed(s, more);
    assert Listed(s, names + more) <==> Listed(s, names) && Listed(s, more);
  }

  /** An exception is raised exactly if one of the names has no list. */
  lemma {:induction false} WriteAllReports(s: Lists, ps: seq<Piece>)
    requires Consistent(s)
    ensures Reports(s, WriteAll(s, ps), Names(ps))
    decreases |ps|
  {
    if s.ok && ps != [] {
      var t := WriteBoth(s, ps[0].name, ps[0].j, ps[0].ys);
      WriteBothKeeps(s, ps[0].name, ps[0].j, ps[0].ys);
      WriteAllReports(t, ps[1..]);
      ReportsOn(s, t, WriteAll(t, ps[1..]), [ps[0].name], Names(ps[1..]));
    }
  }

  /** From s to t both flat memories have been overwritten with the values. */
  ghost predicate Overwrites(s: Lists, t: Lists, vs: seq<Variable>, cell: nat, values: seq<int>) {
    && Whole(s, vs) && Whole(t, vs)
    && Flat(t.values, vs) == Overwrite(Flat(s.values, vs), cell, values)
    && Flat(t.prev, vs) == Overwrite(Flat(s.prev, vs), cell, values)
  }

  lemma {:induction false} OverwritesOn(
    s: Lists, t: Lists, u: Lists, vs: seq<Variable>, cell: nat, values: seq<int>, l: nat, end: nat)
    requires l <= |values| && (l < |values| ==> end == cell + l)
    requires Overwrites(s, t, vs, cell, values[..l]) && Overwrites(t, u, vs, end, values[l..])
    ensures Overwrites(s, u, vs, cell, values)
  {
  }

  /** Storing variable after variable overwrites both flat memories, clipped at their end, whichever lists are
      shared. */
  lemma {:induction false} StoreOverwrites(s: Lists, vs: seq<Variable>, p: nat, cell: nat, values: seq<int>)
    requires s.ok && Whole(s, vs) && Consistent(s) && DistinctNames(vs) && PositiveSizes(vs) && p <= |vs|
             && Owns(vs, p, cell)
    ensures Overwrites(s, Store(s, vs, p, cell, values), vs, cell, values)
    decreases |vs| - p
  {
    if p < |vs| && values != [] {
      var l, end := Chunk(vs, p, cell, |values|), Offset(vs, p) + vs[p].size;
      var t := FirstOverwrites(s, vs, p, cell, values, l, end);
      StoreOverwrites(t, vs, p + 1, end, values[l..]);
      OverwritesOn(s, t, Store(t, vs, p + 1, end, values[l..]), vs, cell, values, l, end);
    } else {
      FlatLength(s.values, vs, |vs|);
      FlatLength(s.prev, vs, |vs|);
    }
  }

  /** The first of the variables: what has been written, l of the values. */
  lemma {:induction false} FirstOverwrites(
    s: Lists, vs: seq<Variable>, p: nat, cell: nat, values: seq<int>, l: nat, end: nat) returns (t: Lists)
    requires s.ok && Whole(s, vs) && Consistent(s) && DistinctNames(vs) && PositiveSizes(vs)
    requires p < |vs| && Owns(vs, p, cell) && values != []
    requires l == Chunk(vs, p, cell, |values|) && end == Offset(vs, p) + vs[p].size
    ensures t.ok
    ensures Consistent(t)
    ensures Overwrites(s, t, vs, cell, values[..l])
    ensures Store(t, vs, p + 1, end, values[l..]) == Store(s, vs, p, cell, values)
  {
    t := WriteBoth(s, vs[p].name, cell - Offset(vs, p), values[..l]);
    StoreStep(s, vs, p, cell, end, values, l);
    WriteBothKeeps(s, vs[p].name, cell - Offset(vs, p), values[..l]);
    ChunkOverwrites(s, vs, p, cell, values[..l]);
  }

  lemma {:induction false} ChunkOverwrites(s: Lists, vs: seq<Variable>, p: nat, cell: nat, ys: seq<int>)
    requires Whole(s, vs) && Consistent(s) && DistinctNames(vs)
    requires p < |vs| && Offset(vs, p) <= cell && cell + |ys| <= Offset(vs, p) + vs[p].size
    ensures var t := WriteBoth(s, vs[p].name, cell - Offset(vs, p), ys);
            t.ok && Overwrites(s, t, vs, cell, ys)
  {
    WriteBothOverwrites(s, vs, p, cell - Offset(vs, p), ys);
    WriteVariable(s.values, vs, p, cell - Offset(vs, p), ys);
    WriteVariable(s.prev, vs, p, cell - Offset(vs, p), ys);
  }

  /** If cell q of variable k is among those that values are given for, its list has the value at this place. */
  ghost predicate FoundAt(c: Cache, vs: seq<Variable>, cell: nat, values: seq<int>, k: nat, q: nat) {
    k < |vs| && q < vs[k].size && cell <= Offset(vs, k) + q < cell + |values| ==>
      vs[k].name in c && q < |c[vs[k].name]| && c[vs[k].name][q] == values[Offset(vs, k) + q - cell]
  }

  ghost predicate Found(c: Cache, vs: seq<Variable>, cell: nat, values: seq<int>) {
    forall k: nat, q: nat :: FoundAt(c, vs, cell, values, k, q)
  }

  /** A name without a piece keeps its lists. */
  lemma {:induction false} WriteAllLeaves(s: Lists, ps: seq<Piece>, name: string)
    requires name !in Names(ps) && name in s.values
    ensures Lookup(WriteAll(s, ps).values, name) == Some(s.values[name])
    decreases |ps|
  {
    if s.ok && ps != [] {
      WriteAllLeaves(WriteBoth(s, ps[0].name, ps[0].j, ps[0].ys), ps[1..], name);
    }
  }

  lemma {:induction false} PieceNames(vs: seq<Variable>, p: nat, cell: nat, values: seq<int>, name: string)
    requires forall k :: p <= k < |vs| ==> vs[k].name != name
    ensures name !in Names(Pieces(vs, p, cell, values))
    decreases |vs| - p
  {
    if p < |vs| && cell >= Offset(vs, p) {
      PieceNames(vs, p + 1, Offset(vs, p) + vs[p].size, values[Chunk(vs, p, cell, |values|)..], name);
    }
  }

  /** How far the list of a variable may fall short of the first of l cells that are given, so that they are found
      at their places afterwards: not at all, but by l cells if it is the current and the previous list at once, since
      what the first assignment appends is then overwritten, in place, by the second. */
  function Reserve(s: Lists, name: string, l: nat): nat {
    if name in s.ties.currentPrev then l else 0
  }

  /** The values of a piece are at their place. */
  ghost predicate Has(c: Cache, piece: Piece) {
    var end := piece.j + |piece.ys|;
    piece.name in c && end <= |c[piece.name]| && c[piece.name][piece.j..end] == piece.ys
  }

  ghost predicate Distinct(names: seq<string>) {
    forall i, k :: 0 <= i < k < |names| ==> names[i] != names[k]
  }

  lemma {:induction false} NamesAt(ps: seq<Piece>)
    ensures |Names(ps)| == |ps| && forall i :: 0 <= i < |ps| ==> Names(ps)[i] == ps[i].name
  {
    if ps != [] { NamesAt(ps[1..]); }
  }

  lemma {:induction false} FirstHasIff(s: Lists, ps: seq<Piece>)
    requires s.ok && Consistent(s) && ps != [] && ps[0].ys != [] && ps[0].name !in Names(ps[1..])
    requires ps[0].name in s.values && ps[0].name in s.prev
    ensures Has(WriteAll(s, ps).values, ps[0])
       <==> ps[0].j <= |s.values[ps[0].name]| + Reserve(s, ps[0].name, |ps[0].ys|)
  {
    WriteAllLeaves(WriteBoth(s, ps[0].name, ps[0].j, ps[0].ys), ps[1..], ps[0].name);
  }

  /** Each piece is at its place in the end exactly if the list was long enough in the beginning. */
  lemma {:induction false} WriteAllHasIff(s: Lists, ps: seq<Piece>, i: nat)
    requires s.ok && Consistent(s) && Listed(s, Names(ps)) && Distinct(Names(ps)) && i < |ps| && ps[i].ys != []
    ensures ps[i].name in s.values
    ensures Has(WriteAll(s, ps).values, ps[i])
       <==> ps[i].j <= |s.values[ps[i].name]| + Reserve(s, ps[i].name, |ps[i].ys|)
    decreases |ps|
  {
    NamesAt(ps);
    NamesAt(ps[1..]);
    assert ps[i].name in Names(ps) && ps[0].name in Names(ps);
    if i == 0 {
      FirstHasIff(s, ps);
    } else {
      var t := WriteBoth(s, ps[0].name, ps[0].j, ps[0].ys);
      WriteBothKeeps(s, ps[0].name, ps[0].j, ps[0].ys);
      assert Listed(t, Names(ps[1..])) by { assert forall name :: name in Names(ps[1..]) ==> name in Names(ps); }
      assert ps[1..][i - 1] == ps[i] && Names(ps)[i] == ps[i].name && Names(ps)[0] == ps[0].name;
      assert t.values[ps[i].name] == s.values[ps[i].name];
      WriteAllHasIff(t, ps[1..], i - 1);
    }
  }

  /** One variable, and the rest. */
  lemma {:induction false} FoundSplits(c: Cache, vs: seq<Variable>, p: nat, cell: nat, values: seq<int>, l: nat,
      end: nat)
    requires p < |vs| && Owns(vs, p, cell) && values != [] && l == Chunk(vs, p, cell, |values|)
    requires end == Offset(vs, p) + vs[p].size
    ensures Found(c, vs, cell, values)
       <==> Has(c, Piece(vs[p].name, cell - Offset(vs, p), values[..l])) && Found(c, vs, end, values[l..])
  {
    var name, j := vs[p].name, cell - Offset(vs, p);
    if Found(c, vs, cell, values) {
      assert FoundAt(c, vs, cell, values, p, j + l - 1);
      forall q | j <= q < j + l ensures c[name][q] == values[q - j] { assert FoundAt(c, vs, cell, values, p, q); }
      assert c[name][j..j + l] == values[..l];
      forall k: nat, q: nat ensures FoundAt(c, vs, end, values[l..], k, q) {
        assert FoundAt(c, vs, cell, values, k, q);
      }
    } else if Has(c, Piece(name, j, values[..l])) && Found(c, vs, end, values[l..]) {
      forall k: nat, q: nat | k < |vs| && q < vs[k].size && cell <= Offset(vs, k) + q < cell + |values|
        ensures FoundAt(c, vs, cell, values, k, q)
      {
        if k < p {
          OffsetMonotone(vs, k + 1, p);
        } else if k == p {
          assert c[name][j..j + l][q - j] == values[..l][q - j];
        } else {
          OffsetMonotone(vs, p + 1, k);
          assert FoundAt(c, vs, end, values[l..], k, q);
          assert values[l..][Offset(vs, k) + q - end] == values[Offset(vs, k) + q - cell];
        }
      }
    }
  }

  ghost predicate HasAll(c: Cache, ps: seq<Piece>) {
    forall i :: 0 <= i < |ps| ==> Has(c, ps[i])
  }

  lemma {:induction false} FoundIffPieces(c: Cache, vs: seq<Variable>, p: nat, cell: nat, values: seq<int>)
    requires PositiveSizes(vs) && p <= |vs| && Owns(vs, p, cell)
    ensures Found(c, vs, cell, values) <==> HasAll(c, Pieces(vs, p, cell, values))
    decreases |vs| - p
  {
    var ps := Pieces(vs, p, cell, values);
    if p < |vs| && values != [] {
      var l, end := Chunk(vs, p, cell, |values|), Offset(vs, p) + vs[p].size;
      FoundSplits(c, vs, p, cell, values, l, end);
      FoundIffPieces(c, vs, p + 1, end, values[l..]);
      var first, rest := Piece(vs[p].name, cell - Offset(vs, p), values[..l]), Pieces(vs, p + 1, end, values[l..]);
      assert ps == [first] + rest;
      assert HasAll(c, ps) <==> Has(c, first) && HasAll(c, rest) by {
        assert ps[0] == first && forall i :: 0 <= i < |rest| ==> ps[i + 1] == rest[i];
      }
    } else {
      forall k: nat, q: nat | k < |vs| && q < vs[k].size ensures FoundAt(c, vs, cell, values, k, q) {
        OffsetMonotone(vs, k + 1, |vs|);
      }
    }
  }

  /** All pieces but the first begin with the first cell of their variable. */
  lemma {:induction false} PiecesAre(vs: seq<Variable>, p: nat, cell: nat, values: seq<int>)
    requires PositiveSizes(vs) && p <= |vs| && Owns(vs, p, cell)
    ensures var ps := Pieces(vs, p, cell, values);
            && (ps != [] <==> p < |vs| && values != [])
            && (ps != [] ==> ps[0] == Piece(vs[p].name, cell - Offset(vs, p), values[..Chunk(vs, p, cell, |values|)]))
            && forall i :: 0 <= i < |ps| ==> ps[i].ys != [] && (i > 0 ==> ps[i].j == 0)
    decreases |vs| - p
  {
    if p < |vs| && values != [] {
      var l, end := Chunk(vs, p, cell, |values|), Offset(vs, p) + vs[p].size;
      var ps, rest := Pieces(vs, p, cell, values), Pieces(vs, p + 1, end, values[l..]);
      PiecesAre(vs, p + 1, end, values[l..]);
      assert ps[1..] == rest;
      assert forall i :: 0 < i < |ps| ==> ps[i] == rest[i - 1];
    }
  }

  /** No two pieces are for one variable. */
  lemma {:induction false} PiecesDiffer(vs: seq<Variable>, p: nat, cell: nat, values: seq<int>)
    requires DistinctNames(vs) && p <= |vs|
    ensures Distinct(Names(Pieces(vs, p, cell, values)))
    decreases |vs| - p
  {
    if p < |vs| && cell >= Offset(vs, p) {
      var l, end := Chunk(vs, p, cell, |values|), Offset(vs, p) + vs[p].size;
      var rest := Names(Pieces(vs, p + 1, end, values[l..]));
      PiecesDiffer(vs, p + 1, end, values[l..]);
      PieceNames(vs, p + 1, end, values[l..], vs[p].name);
      assert l != 0 ==> Names(Pieces(vs, p, cell, values)) == [vs[p].name] + rest;
    }
  }

  lemma {:induction false} PiecesListed(s: Lists, vs: seq<Variable>, p: nat, cell: nat, values: seq<int>)
    requires Cached(s, vs)
    ensures Listed(s, Names(Pieces(vs, p, cell, values)))
    decreases |vs| - p
  {
    if p < |vs| && cell >= Offset(vs, p) {
      PiecesListed(s, vs, p + 1, Offset(vs, p) + vs[p].size, values[Chunk(vs, p, cell, |values|)..]);
    }
  }

  /** Lists of any length, such as a client's own values or the empty list of an unanswered request may be: the
      values of an area are stored at their places exactly if the list of the variable it begins in reaches
      as far as its first cell, or falls short of it by no more than the reserve. */
  lemma {:induction false} StoreIsFoundIff(s: Lists, vs: seq<Variable>, p: nat, cell: nat, values: seq<int>)
    requires s.ok && Cached(s, vs) && Consistent(s) && DistinctNames(vs) && PositiveSizes(vs)
    requires p < |vs| && Owns(vs, p, cell) && values != []
    ensures Found(Store(s, vs, p, cell, values).values, vs, cell, values)
       <==> cell - Offset(vs, p) <= |s.values[vs[p].name]| + Reserve(s, vs[p].name, Chunk(vs, p, cell, |values|))
  {
    var ps := Pieces(vs, p, cell, values);
    PiecesAre(vs, p, cell, values);
    PiecesDiffer(vs, p, cell, values);
    PiecesListed(s, vs, p, cell, values);
    FoundIffPieces(WriteAll(s, ps).values, vs, p, cell, values);
    forall i | 0 <= i < |ps|
      ensures Has(WriteAll(s, ps).values, ps[i]) <==>
              i > 0 || ps[0].j <= |s.values[vs[p].name]| + Reserve(s, vs[p].name, |ps[0].ys|)
    {
      WriteAllHasIff(s, ps, i);
    }
  }

  /** The lists of a node object. */
  function ListsOf(s: CacheSync.State, ties: Ties): Lists {
    Lists(s.current, s.prev, s.next, ties, [], true)
  }

  /** New lists for some names, as the current, the previous and the pending ones, or some of these. */
  function TiesMerged(t: Ties, names: set<string>, inCurrent: bool, inPrev: bool, inNext: bool): Ties {
    Ties((if inCurrent || inPrev then t.currentPrev - names else t.currentPrev) +
      (if inCurrent && inPrev then names else {}),
         (if inCurrent || inNext then t.currentNext - names else t.currentNext) +
           (if inCurrent && inNext then names else {}),
         (if inPrev || inNext then t.prevNext - names else t.prevNext) + (if inPrev && inNext then names else {}))
  }

  /** What the operations make the dictionaries share. Values read become one list for the current and the previous
      value, values assigned one for the current and the pending; a sync sends a copy and remembers the pending list. */
  function TiesAfter(s: CacheSync.State, t: Ties, op: CacheSync.Op): Ties {
    match op
    case Update(answered) => if answered && s.table != map[] then Ties(s.table.Keys, {}, {}) else t
    case Get(name, cached, _) => if cached && name in s.current then t else TiesMerged(t, {name}, true, true, false)
    case SetDirect(name, value) => if Int16Cells.AllInt16(value) then TiesMerged(t, {name}, true, false, false) else t
    case SetCached(name, _) => TiesMerged(t, {name}, true, false, true)
    case Mirrored(values) => TiesMerged(t, set name | name in values && name in s.current, true, true, false)
    case Sync(order) =>
      var n := CacheSync.Reach(s, order);
      var u := TiesSent(t, CacheSync.SentOf(s, order[..n]));
      if n == |order| then Ties(u.currentPrev, {}, {}) else u
    case Remote(_) => t
    case Describe(_, _) => Ties({}, {}, t.prevNext)
  }

  function TiesSent(t: Ties, names: set<string>): Ties {
    Ties(t.currentPrev - names, t.currentNext - names, t.prevNext + names)
  }

  function TiesOf(s: CacheSync.State, ops: seq<CacheSync.Op>): Ties {
    if ops == [] then UNTIED
    else
      var n := |ops| - 1;
      TiesAfter(CacheSync.Run(s, ops[..n]), TiesOf(s, ops[..n]), ops[n])
  }

  lemma {:induction false} RunFurther(s: CacheSync.State, ops: seq<CacheSync.Op>, op: CacheSync.Op)
    ensures CacheSync.Run(s, ops + [op]) == CacheSync.Step(CacheSync.Run(s, ops), op)
    ensures TiesOf(s, ops + [op]) == TiesAfter(CacheSync.Run(s, ops), TiesOf(s, ops), op)
  {
    assert (ops + [op])[..|ops|] == ops;
  }

  /** A read that is not answered leaves one empty list as the current and the previous value. The values of an
      area that begins in this variable are then stored at their places exactly if no more cells of the variable lie
      before the area than the area has in it. */
  lemma {:induction false} FoundAfterUnansweredReadIff(
    s: CacheSync.State, ties: Ties, vs: seq<Variable>, p: nat, cell: nat, values: seq<int>)
    requires Cached(ListsOf(s, ties), vs) && Consistent(ListsOf(s, ties)) && DistinctNames(vs) && PositiveSizes(vs)
    requires p < |vs| && Owns(vs, p, cell) && values != []
    ensures var op := CacheSync.Get(vs[p].name, false, false);
            var t := ListsOf(CacheSync.Step(s, op), TiesAfter(s, ties, op));
            (Found(Store(t, vs, p, cell, values).values, vs, cell, values)
             <==> cell - Offset(vs, p) <= Chunk(vs, p, cell, |values|))
  {
    var op := CacheSync.Get(vs[p].name, false, false);
    StoreIsFoundIff(ListsOf(CacheSync.Step(s, op), TiesAfter(s, ties, op)), vs, p, cell, values);
  }

  /** An empty list in both dictionaries: an area that is as long as what lies before it is stored at its places, below
      a part of itself; a shorter one is stored twice, too early. */
  lemma UnansweredReadStoresTwice()
    ensures var vs := [Variable("v", 4)];
            var s := Lists(map["v" := []], map["v" := []], map[], Ties({"v"}, {}, {}), [], true);
            && "v" in Store(s, vs, 0, 1, [1, 2, 3]).values
            && Store(s, vs, 0, 1, [1, 2, 3]).values["v"] == [1, 1, 2, 3]
            && "v" in Store(s, vs, 0, 2, [9]).values
            && Store(s, vs, 0, 2, [9]).values["v"] == [9, 9]
  {
    var vs := [Variable("v", 4)];
    var s := Lists(map["v" := []], map["v" := []], map[], Ties({"v"}, {}, {}), [], true);
    assert Offset(vs, 0) == 0 && Pieces(vs, 1, 4, []) == [];
    assert [1, 2, 3][..3] == [1, 2, 3] && [1, 2, 3][3..] == [] && [9][..1] == [9] && [9][1..] == [];
    assert Pieces(vs, 0, 1, [1, 2, 3]) == [Piece("v", 1, [1, 2, 3])];
    assert Pieces(vs, 0, 2, [9]) == [Piece("v", 2, [9])];
    assert Assigned([], 1, [1, 2, 3]) == [1, 2, 3] && Assigned([1, 2, 3], 1, [1, 2, 3]) == [1, 1, 2, 3];
    assert Assigned([], 2, [9]) == [9] && Assigned([9], 2, [9]) == [9, 9];
  }

  /** The names reported are those of the variables the area overlaps, in layout order. */
  lemma {:induction false} ReportedAreTouched(vs: seq<Variable>, p: nat, a: Area, d: nat)
    requires PositiveSizes(vs) && p <= |vs| && d < |a.values| && Owns(vs, p, a.start + d)
    ensures TouchedUpTo(vs, |vs|, a) == TouchedUpTo(vs, p, a) + Names(Pieces(vs, p, a.start + d, a.values[d..]))
    decreases |vs| - p, 1
  {
    if p < |vs| {
      var rest, name := a.values[d..], vs[p].name;
      var l, end := Chunk(vs, p, a.start + d, |rest|), Offset(vs, p) + vs[p].size;
      var more := Names(Pieces(vs, p + 1, end, rest[l..]));
      ReportedNext(vs, p, a, d, l, end);
      assert (TouchedUpTo(vs, p, a) + [name]) + more == TouchedUpTo(vs, p, a) + ([name] + more);
    }
  }

  lemma {:induction false} ReportedNext(vs: seq<Variable>, p: nat, a: Area, d: nat, l: nat, end: nat)
    requires PositiveSizes(vs) && p < |vs| && d < |a.values| && Owns(vs, p, a.start + d)
    requires l == Chunk(vs, p, a.start + d, |a.values| - d) && end == Offset(vs, p) + vs[p].size
    ensures TouchedUpTo(vs, |vs|, a) ==
            (TouchedUpTo(vs, p, a) + [vs[p].name]) + Names(Pieces(vs, p + 1, end, a.values[d..][l..]))
    decreases |vs| - p, 0
  {
    assert HasCell(vs, p, a.start + d);
    assert TouchedUpTo(vs, p + 1, a) == TouchedUpTo(vs, p, a) + [vs[p].name];
    assert a.values[d..][l..] == a.values[d + l..];
    if d + l < |a.values| {
      assert end == a.start + (d + l);
      ReportedAreTouched(vs, p + 1, a, d + l);
    } else {
      TouchedPrefix(vs, |vs|, p + 1, a);
      assert Pieces(vs, p + 1, end, []) == [];
    }
  }

  /** From s to t the two memories have become these, and these names have been reported. */
  ghost predicate Leads(s: Lists, t: Lists, vs: seq<Variable>, memory: seq<int>, prev: seq<int>, names: seq<string>) {
    && Consistent(t)
    && Whole(t, vs)
    && (t.ok, t.ties, Flat(t.values, vs), Flat(t.prev, vs), t.names) == (true, s.ties, memory, prev, s.names + names)
  }

  /** There is a variable to begin with. */
  ghost predicate Placeable(vs: seq<Variable>, a: Area) {
    vs == [] ==> a.values == []
  }

  lemma {:induction false} WholeIsListed(s: Lists, vs: seq<Variable>, n: nat, a: Area)
    requires n <= |vs| && Cached(s, vs)
    ensures Listed(s, TouchedUpTo(vs, n, a))
  {
    if n > 0 { WholeIsListed(s, vs, n - 1, a); }
  }

  /** A whole area, from the variable that owns its first cell. */
  lemma {:induction false} StoreArea(s: Lists, vs: seq<Variable>, a: Area)
    requires s.ok && Whole(s, vs) && Consistent(s) && DistinctNames(vs) && PositiveSizes(vs)
    requires a.start <= TotalSize(vs) && Placeable(vs, a)
    ensures Leads(s, Store(s, vs, Owner(vs, a.start), a.start, a.values), vs,
                  Overwrite(Flat(s.values, vs), a.start, a.values), Overwrite(Flat(s.prev, vs), a.start, a.values),
                    Touched(vs, a))
  {
    var p := Owner(vs, a.start);
    OneMoreReported(s, vs, a);
    WholeIsListed(s, vs, |vs|, a);
    StoreOverwrites(s, vs, p, a.start, a.values);
  }

  lemma {:induction false} LeadsOn(s: Lists, t: Lists, u: Lists, vs: seq<Variable>,
    memory: seq<int>, prev: seq<int>, names: seq<string>, memory': seq<int>, prev': seq<int>, names': seq<string>)
    requires Leads(s, t, vs, memory, prev, names) && Leads(t, u, vs, memory', prev', names')
    ensures Leads(s, u, vs, memory', prev', names + names')
  {
    assert (s.names + names) + names' == s.names + (names + names');
  }

  lemma {:induction false} AreaReports(vs: seq<Variable>, a: Area)
    requires PositiveSizes(vs) && a.start <= TotalSize(vs)
    ensures Names(Pieces(vs, Owner(vs, a.start), a.start, a.values)) == Touched(vs, a)
  {
    var p := Owner(vs, a.start);
    TouchedNone(vs, p, a);
    if a.values == [] {
      TouchedNone(vs, |vs|, a);
    } else {
      assert a.values[0..] == a.values;
      ReportedAreTouched(vs, p, a, 0);
    }
  }

  /** Whatever the lengths of the lists: an exception is raised exactly if a variable touched has no list, or there is
      no variable at all; otherwise the names reported are those of the variables touched. */
  lemma {:induction false} StoreAllReports(s: Lists, vs: seq<Variable>, areas: seq<Area>)
    requires Consistent(s) && s.ok && PositiveSizes(vs) && forall a :: a in areas ==> a.start <= TotalSize(vs)
    ensures var t := StoreAll(s, vs, areas);
            && Keeps(s, t)
            && ((forall a :: a in areas ==> Placeable(vs, a)) ==> Reports(s, t, TouchedAll(vs, areas)))
            && (t.ok ==> forall a :: a in areas ==> Placeable(vs, a))
  {
    if areas != [] {
      var before, a := areas[..|areas| - 1], areas[|areas| - 1];
      var t := StoreAll(s, vs, before);
      StoreAllReports(s, vs, before);
      OneMoreReported(t, vs, a);
      assert forall b :: b in areas <==> b in before || b == a;
      if forall b :: b in areas ==> Placeable(vs, b) {
        ReportsOn(s, t, StoreAll(s, vs, areas), TouchedAll(vs, before), Touched(vs, a));
      }
    }
  }

  lemma {:induction false} OneMoreReported(s: Lists, vs: seq<Variable>, a: Area)
    requires Consistent(s) && PositiveSizes(vs) && a.start <= TotalSize(vs)
    ensures var t := Store(s, vs, Owner(vs, a.start), a.start, a.values);
            && Keeps(s, t)
            && (t.ok ==> s.ok && Placeable(vs, a))
            && (Placeable(vs, a) ==> Reports(s, t, Touched(vs, a)))
  {
    var ps := Pieces(vs, Owner(vs, a.start), a.start, a.values);
    WriteAllKeeps(s, ps);
    WriteAllReports(s, ps);
    AreaReports(vs, a);
  }

  lemma {:induction false} StoreAllOverwrites(s: Lists, vs: seq<Variable>, areas: seq<Area>)
    requires s.ok && Whole(s, vs) && Consistent(s) && DistinctNames(vs) && PositiveSizes(vs)
    requires forall a :: a in areas ==> a.start <= TotalSize(vs) && Placeable(vs, a)
    ensures Leads(s, StoreAll(s, vs, areas), vs,
                  OverwriteAll(Flat(s.values, vs), areas), OverwriteAll(Flat(s.prev, vs), areas), TouchedAll(vs, areas))
  {
    if areas == [] {
      assert s.names + [] == s.names;
    } else {
      var before, a := areas[..|areas| - 1], areas[|areas| - 1];
      var memory, prev := OverwriteAll(Flat(s.values, vs), before), OverwriteAll(Flat(s.prev, vs), before);
      var t := StoreAll(s, vs, before);
      StoreAllOverwrites(s, vs, before);
      StoreArea(t, vs, a);
      LeadsOn(s, t, StoreAll(s, vs, areas), vs, memory, prev, TouchedAll(vs, before),
              Overwrite(memory, a.start, a.values), Overwrite(prev, a.start, a.values), Touched(vs, a));
    }
  }

  // ---------------------------------------------------------------- pending values

  /** The area has, for cells of variable k, the values that the list has already. */
  ghost predicate Agrees(vs: seq<Variable>, k: nat, a: Area, xs: seq<int>)
    requires k < |vs| && |xs| == vs[k].size
  {
    forall q :: 0 <= q < |xs| && a.start <= Offset(vs, k) + q < a.start + |a.values| ==>
      xs[q] == a.values[Offset(vs, k) + q - a.start]
  }

  /** A pending value that is also the current one is overwritten with it: it survives an area exactly if the area
      agrees with it. */
  lemma {:induction false} PendingSurvivesIff(s: Lists, vs: seq<Variable>, k: nat, a: Area)
    requires s.ok && Whole(s, vs) && Consistent(s) && DistinctNames(vs) && PositiveSizes(vs)
    requires k < |vs| && a.start <= TotalSize(vs) && vs[k].name in s.ties.currentNext
    ensures var name, t := vs[k].name, Store(s, vs, Owner(vs, a.start), a.start, a.values);
            && name in t.next
            && Lookup(t.values, name) == Some(t.next[name])
            && (t.next[name] == s.next[name] <==> Agrees(vs, k, a, s.next[name]))
  {
    var name, t := vs[k].name, Store(s, vs, Owner(vs, a.start), a.start, a.values);
    StoreArea(s, vs, a);
    assert name in t.values && t.next[name] == t.values[name] && s.next[name] == s.values[name];
    OverwrittenListIff(s.values, t.values, vs, k, a);
  }

  lemma {:induction false} OverwrittenListIff(c: Cache, d: Cache, vs: seq<Variable>, k: nat, a: Area)
    requires FullLength(c, vs) && FullLength(d, vs) && k < |vs|
    requires Flat(d, vs) == Overwrite(Flat(c, vs), a.start, a.values)
    ensures d[vs[k].name] == c[vs[k].name] <==> Agrees(vs, k, a, c[vs[k].name])
  {
    var xs, ys, at := c[vs[k].name], d[vs[k].name], Offset(vs, k);
    forall q | 0 <= q < vs[k].size
      ensures ys[q] == if a.start <= at + q < a.start + |a.values| then a.values[at + q - a.start] else xs[q]
    {
      FlatCell(c, vs, |vs|, k, q);
      FlatCell(d, vs, |vs|, k, q);
    }
    if Agrees(vs, k, a, xs) { assert ys == xs; }
  }

  /** So a cached assignment is lost, in whole or in part, to an area that arrives before the next sync and has
      another value for one of its cells. */
  lemma {:induction false} CachedWriteSurvivesIff(
    s: CacheSync.State, ties: Ties, vs: seq<Variable>, k: nat, value: seq<int>, a: Area)
    requires Whole(ListsOf(s, ties), vs) && Consistent(ListsOf(s, ties)) && DistinctNames(vs) && PositiveSizes(vs)
    requires k < |vs| && a.start <= TotalSize(vs) && |value| == vs[k].size
    ensures var op := CacheSync.SetCached(vs[k].name, value);
            var t := Store(ListsOf(CacheSync.Step(s, op), TiesAfter(s, ties, op)), vs, Owner(vs, a.start), a.start,
              a.values);
            Lookup(t.next, vs[k].name) == Some(value) <==> Agrees(vs, k, a, value)
  {
    var op := CacheSync.SetCached(vs[k].name, value);
    var t := ListsOf(CacheSync.Step(s, op), TiesAfter(s, ties, op));
    assert FullLength(t.values, vs) by {
      forall j | 0 <= j < |vs| ensures vs[j].name in t.values && |t.values[vs[j].name]| == vs[j].size {
        if vs[j].name == vs[k].name { assert j == k; }
      }
    }
    PendingSurvivesIff(t, vs, k, a);
  }

  // ---------------------------------------------------------------- shared lists

  /** No list is current, previous and pending at once. */
  ghost predicate Parted(t: Ties) {
    forall name ::
      && !(name in t.currentPrev && name in t.currentNext)
      && !(name in t.currentPrev && name in t.prevNext)
      && !(name in t.currentNext && name in t.prevNext)
  }

  lemma {:induction false} TiesStep(s: CacheSync.State, t: Ties, op: CacheSync.Op)
    requires Consistent(ListsOf(s, t)) && Parted(t)
    ensures Consistent(ListsOf(CacheSync.Step(s, op), TiesAfter(s, t, op)))
    ensures Parted(TiesAfter(s, t, op))
  {
    match op {
      case Sync(order) => TiesAlong(s, t, order[..CacheSync.Reach(s, order)]);
      case _ =>
    }
  }

  lemma {:induction false} TiesAlong(s: CacheSync.State, t: Ties, order: seq<string>)
    requires Consistent(ListsOf(s, t)) && Parted(t)
    ensures var u := TiesSent(t, CacheSync.SentOf(s, order));
            Consistent(ListsOf(CacheSync.SyncAlong(s, order), u)) && Parted(u)
  {
    var u, v := CacheSync.SyncAlong(s, order), TiesSent(t, CacheSync.SentOf(s, order));
    forall name | name in v.currentPrev ensures name in u.current && name in u.prev && u.current[name] == u.prev[name] {
      CacheSync.SyncValues(s, order, name);
    }
    forall name | name in v.currentNext ensures name in u.current && name in u.next && u.current[name] == u.next[name] {
      CacheSync.SyncValues(s, order, name);
    }
    forall name | name in v.prevNext ensures name in u.prev && name in u.next && u.prev[name] == u.next[name] {
      CacheSync.SyncValues(s, order, name);
    }
  }

  /** In every run, names that share a list have one value, and no list is shared by all three dictionaries. */
  lemma {:induction false} TiesRun(m: VariablesMap, memory: seq<int>, ops: seq<CacheSync.Op>)
    ensures var s0 := CacheSync.Connected(m, memory);
            Consistent(ListsOf(CacheSync.Run(s0, ops), TiesOf(s0, ops))) && Parted(TiesOf(s0, ops))
  {
    if ops != [] {
      var n, s0 := |ops| - 1, CacheSync.Connected(m, memory);
      TiesRun(m, memory, ops[..n]);
      TiesStep(CacheSync.Run(s0, ops[..n]), TiesOf(s0, ops[..n]), ops[n]);
    }
  }

  /** Two of the three dictionaries. */
  datatype Pair = CurrentPrev | CurrentNext | PrevNext

  function TiedIn(t: Ties, pair: Pair): set<string> {
    match pair
    case CurrentPrev => t.currentPrev
    case CurrentNext => t.currentNext
    case PrevNext => t.prevNext
  }

  /** A value of the variable has been read, or an empty list put in its place. */
  ghost predicate Reads(s: CacheSync.State, op: CacheSync.Op, name: string) {
    match op
    case Update(answered) => answered && name in s.table
    case Get(n, cached, _) => n == name && !(cached && name in s.current)
    case Mirrored(values) => name in values && name in s.current
    case _ => false
  }

  ghost predicate Assigns(op: CacheSync.Op, name: string) {
    op.SetCached? && op.name == name
  }

  /** The pending value is sent; completely: with no exception to any. */
  ghost predicate SendsIn(s: CacheSync.State, op: CacheSync.Op, name: string) {
    op.Sync? && name in CacheSync.SentOf(s, op.order[..CacheSync.Reach(s, op.order)])
  }

  ghost predicate CompleteSync(s: CacheSync.State, op: CacheSync.Op) {
    op.Sync? && CacheSync.Reach(s, op.order) == |op.order|
  }

  /** The variable gets one list in both dictionaries. */
  ghost predicate Joins(s: CacheSync.State, op: CacheSync.Op, pair: Pair, name: string) {
    match pair
    case CurrentPrev => Reads(s, op, name)
    case CurrentNext => Assigns(op, name)
    case PrevNext => SendsIn(s, op, name) && !CompleteSync(s, op)
  }

  /** It gets another list, or none any more, in one of them. */
  ghost predicate Parts(s: CacheSync.State, op: CacheSync.Op, pair: Pair, name: string) {
    var all := op.Update? && op.answered && s.table != map[];
    var direct := op.SetDirect? && op.name == name && Int16Cells.AllInt16(op.value);
    || (pair != PrevNext && (all || Reads(s, op, name) || direct || Assigns(op, name) || SendsIn(s, op, name)
         || op.Describe?))
    || (pair != CurrentNext && (all || Reads(s, op, name) || SendsIn(s, op, name)))
    || (pair != CurrentPrev && (Assigns(op, name) || CompleteSync(s, op)))
  }

  lemma {:induction false} SharedStep(s: CacheSync.State, t: Ties, op: CacheSync.Op, pair: Pair, name: string)
    ensures name in TiedIn(TiesAfter(s, t, op), pair) <==>
            Joins(s, op, pair, name) || (name in TiedIn(t, pair) && !Parts(s, op, pair, name))
  {
  }

  /** At which operations of a run this happens. */
  ghost function JoinsIn(s: CacheSync.State, ops: seq<CacheSync.Op>, pair: Pair, name: string): (r: seq<bool>)
    ensures |r| == |ops|
    ensures forall k :: 0 <= k < |ops| ==> r[k] == Joins(CacheSync.Run(s, ops[..k]), ops[k], pair, name)
  {
    seq(|ops|, k requires 0 <= k < |ops| => Joins(CacheSync.Run(s, ops[..k]), ops[k], pair, name))
  }

  ghost function PartsIn(s: CacheSync.State, ops: seq<CacheSync.Op>, pair: Pair, name: string): (r: seq<bool>)
    ensures |r| == |ops|
    ensures forall k :: 0 <= k < |ops| ==> r[k] == Parts(CacheSync.Run(s, ops[..k]), ops[k], pair, name)
  {
    seq(|ops|, k requires 0 <= k < |ops| => Parts(CacheSync.Run(s, ops[..k]), ops[k], pair, name))
  }

  /** Before n, the one has happened, and the other has not happened since. */
  ghost predicate LastOf(joins: seq<bool>, parts: seq<bool>, n: nat)
    requires n <= |joins| == |parts|
  {
    exists k :: 0 <= k < n && joins[k] && forall j :: k < j < n ==> !parts[j]
  }

  lemma {:induction false} LastStep(joins: seq<bool>, parts: seq<bool>, n: nat)
    requires n < |joins| == |parts|
    ensures LastOf(joins, parts, n + 1) <==> joins[n] || (LastOf(joins, parts, n) && !parts[n])
  {
    if k :| 0 <= k < n && joins[k] && forall j :: k < j < n ==> !parts[j] {
      assert !parts[n] ==> forall j :: k < j < n + 1 ==> !parts[j];
    }
  }

  lemma {:induction false} SharedUpTo(s: CacheSync.State, ops: seq<CacheSync.Op>, pair: Pair, name: string, n: nat)
    requires n <= |ops|
    ensures name in TiedIn(TiesOf(s, ops[..n]), pair) <==>
            LastOf(JoinsIn(s, ops, pair, name), PartsIn(s, ops, pair, name), n)
  {
    if n > 0 {
      SharedUpTo(s, ops, pair, name, n - 1);
      assert ops[..n] == ops[..n - 1] + [ops[n - 1]];
      RunFurther(s, ops[..n - 1], ops[n - 1]);
      SharedStep(CacheSync.Run(s, ops[..n - 1]), TiesOf(s, ops[..n - 1]), ops[n - 1], pair, name);
      LastStep(JoinsIn(s, ops, pair, name), PartsIn(s, ops, pair, name), n - 1);
    }
  }

  /** In every run, two dictionaries share the list of a variable exactly if something has given it one list in both,
      and nothing has given it another in one of them since. */
  lemma {:induction false} SharedIff(s: CacheSync.State, ops: seq<CacheSync.Op>, pair: Pair, name: string)
    ensures name in TiedIn(TiesOf(s, ops), pair) <==>
            LastOf(JoinsIn(s, ops, pair, name), PartsIn(s, ops, pair, name), |ops|)
  {
    assert ops[..|ops|] == ops;
    SharedUpTo(s, ops, pair, name, |ops|);
  }

  // ---------------------------------------------------------------- owners

  ghost function Owner(vs: seq<Variable>, cell: nat): (p: nat)
    requires cell <= TotalSize(vs)
    ensures Owns(vs, p, cell)
    ensures p <= |vs|
    ensures Offset(vs, p) <= cell
  {
    if cell < TotalSize(vs) then
      OwnerExists(vs, cell);
      var p: nat :| Owns(vs, p, cell) && p < |vs|;
      p
    else
      |vs|
  }

  lemma {:induction false} OwnerExists(vs: seq<Variable>, cell: nat)
    requires cell < TotalSize(vs)
    ensures exists p: nat :: Owns(vs, p, cell) && p < |vs|
  {
    CellOwner(vs, |vs|, cell);
    var p: nat :| HasCell(vs, p, cell);
    assert HasCell(vs, p, cell);
    assert Owns(vs, p, cell);
  }
}
