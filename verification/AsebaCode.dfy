/** The part of the Aseba language that generated handlers use, with the meaning Aseba gives it:
    arrays of int16 cells, arithmetic that wraps, division that truncates. */
module AsebaCode {
  import opened Int16Cells

  type Memory = map<string, seq<int>>

  /** buffer[first:last], both ends included. */
  datatype Slice = Slice(first: nat, last: int)

  datatype Statement =
    | Emit(event: string, parts: seq<string>)
    | Add(target: string, parts: seq<string>)
    | Increment(name: string)
    | Zero(name: string)
    | Fill(name: string, value: int)
    | DivideCells(name: string, cells: nat, divisor: nat)
    | WhenEqual(name: string, value: int, body: seq<Statement>)
    | WhenSame(name: string, array_: string, cell: nat, body: seq<Statement>)
    | Call(function_: string, array_: string, slices: seq<Slice>)

  datatype Effect = Emission(event: string, payload: seq<int>) | Called(function_: string, arguments: seq<seq<int>>)

  // ---------------------------------------------------------------- int16

  /** Division as in C: towards zero. */
  function Quotient(x: int, divisor: nat): int
    requires divisor > 0
  {
    if x >= 0 then x / divisor else -((-x) / divisor)
  }

  // ---------------------------------------------------------------- memory

  function Cells(m: Memory, name: string): seq<int> {
    if name in m then m[name] else []
  }

  /** [a,b,...]: the cells of several variables one after the other. */
  function Concat(m: Memory, parts: seq<string>): seq<int> {
    if parts == [] then [] else Concat(m, parts[..|parts| - 1]) + Cells(m, parts[|parts| - 1])
  }

  function Store(m: Memory, name: string, xs: seq<int>): Memory {
    if name in m then m[name := xs] else m
  }

  /** call math.add(target, parts, target). */
  function AddCells(xs: seq<int>, ys: seq<int>): (r: seq<int>)
    ensures |r| == |xs|
    ensures forall c :: 0 <= c < |xs| ==> r[c] == Wrap(xs[c] + if c < |ys| then ys[c] else 0)
  {
    seq(|xs|, c requires 0 <= c < |xs| => Wrap(xs[c] + if c < |ys| then ys[c] else 0))
  }

  /** for temp in from:cells-1 do xs[temp] /= by end. */
  function DivideFrom(xs: seq<int>, from: nat, cells: nat, divisor: nat): (r: seq<int>)
    requires divisor > 0
    ensures |r| == |xs|
    ensures forall c :: 0 <= c < |xs| ==> r[c] == if from <= c < cells then Quotient(xs[c], divisor) else xs[c]
    decreases cells - from
  {
    if from >= cells || from >= |xs| then xs
      else DivideFrom(xs[from := Quotient(xs[from], divisor)], from + 1, cells, divisor)
  }

  function Constant(n: nat, value: int): (r: seq<int>)
    ensures |r| == n && forall c :: 0 <= c < n ==> r[c] == value
  {
    seq(n, _ => value)
  }

  function SetFirst(xs: seq<int>, x: int): seq<int> {
    if xs == [] then xs else xs[0 := x]
  }

  function First(xs: seq<int>): int {
    if xs == [] then 0 else xs[0]
  }

  function Argument(xs: seq<int>, s: Slice): seq<int> {
    if s.first <= s.last + 1 <= |xs| then xs[s.first..s.last + 1] else []
  }

  function Arguments(xs: seq<int>, slices: seq<Slice>): seq<seq<int>> {
    if slices == [] then [] else [Argument(xs, slices[0])] + Arguments(xs, slices[1..])
  }

  // ---------------------------------------------------------------- execution

  function Exec(s: Statement, m: Memory): (Memory, seq<Effect>)
    decreases s
  {
    match s
    case Emit(event, parts) => (m, [Emission(event, Concat(m, parts))])
    case Add(target, parts) => (Store(m, target, AddCells(Cells(m, target), Concat(m, parts))), [])
    case Increment(name) => (Store(m, name, SetFirst(Cells(m, name), Wrap(First(Cells(m, name)) + 1))), [])
    case Zero(name) => (Store(m, name, SetFirst(Cells(m, name), 0)), [])
    case Fill(name, value) => (Store(m, name, Constant(|Cells(m, name)|, value)), [])
    case DivideCells(name, cells, divisor) => (if divisor == 0 then m
      else Store(m, name, DivideFrom(Cells(m, name), 0, cells, divisor)), [])
    case WhenEqual(name, value, body) => if Cells(m, name) == [value] then ExecAll(body, m) else (m, [])
    case WhenSame(name, array_, cell, body) =>
      if cell < |Cells(m, array_)| && Cells(m, name) == [Cells(m, array_)[cell]] then ExecAll(body, m) else (m, [])
    case Call(f, array_, slices) => (m, [Called(f, Arguments(Cells(m, array_), slices))])
  }

  function ExecAll(ss: seq<Statement>, m: Memory): (Memory, seq<Effect>)
    decreases ss
  {
    if ss == [] then (m, [])
    else
      var (m1, before) := Exec(ss[0], m);
      var (m2, after) := ExecAll(ss[1..], m1);
      (m2, before + after)
  }

  /** The variables a statement may change. */
  function Writes(s: Statement): set<string>
    decreases s
  {
    match s
    case Emit(_, _) => {}
    case Add(target, _) => {target}
    case Increment(name) => {name}
    case Zero(name) => {name}
    case Fill(name, _) => {name}
    case DivideCells(name, _, _) => {name}
    case WhenEqual(_, _, body) => WritesAll(body)
    case WhenSame(_, _, _, body) => WritesAll(body)
    case Call(_, _, _) => {}
  }

  function WritesAll(ss: seq<Statement>): set<string>
    decreases ss
  {
    if ss == [] then {} else Writes(ss[0]) + WritesAll(ss[1..])
  }

  /** The events a statement may emit. */
  function Emits(s: Statement): set<string>
    decreases s
  {
    match s
    case Emit(event, _) => {event}
    case WhenEqual(_, _, body) => EmitsAll(body)
    case WhenSame(_, _, _, body) => EmitsAll(body)
    case _ => {}
  }

  function EmitsAll(ss: seq<Statement>): set<string>
    decreases ss
  {
    if ss == [] then {} else Emits(ss[0]) + EmitsAll(ss[1..])
  }

  /** The payloads with which an event has been emitted. */
  function Payloads(effects: seq<Effect>, event: string): seq<seq<int>> {
    if effects == [] then []
    else
      var e := effects[|effects| - 1];
      Payloads(effects[..|effects| - 1], event) + if e.Emission? && e.event == event then [e.payload] else []
  }

  lemma {:induction false} PayloadsAdd(xs: seq<Effect>, ys: seq<Effect>, event: string)
    ensures Payloads(xs + ys, event) == Payloads(xs, event) + Payloads(ys, event)
  {
    if ys == [] {
      assert xs + ys == xs;
    } else {
      var before, last := ys[..|ys| - 1], ys[|ys| - 1];
      PayloadsAdd(xs, before, event);
      assert (xs + ys)[..|xs + ys| - 1] == xs + before && (xs + ys)[|xs + ys| - 1] == last;
      var added := if last.Emission? && last.event == event then [last.payload] else [];
      assert Payloads(xs, event) + (Payloads(before, event) + added) ==
             Payloads(xs, event) + Payloads(before, event) + added;
    }
  }

  /** Same variables, same sizes. */
  ghost predicate SameShape(m: Memory, n: Memory) {
    forall name :: (name in m <==> name in n) && (name in m ==> |m[name]| == |n[name]|)
  }

  /** Code keeps the sizes of all variables and the values of those it does not write, and emits nothing
      else than its events. */
  lemma {:induction false} ExecFrame(s: Statement, m: Memory, name: string, event: string)
    ensures SameShape(Exec(s, m).0, m)
    ensures name !in Writes(s) ==> Cells(Exec(s, m).0, name) == Cells(m, name)
    ensures event !in Emits(s) ==> Payloads(Exec(s, m).1, event) == []
    decreases s
  {
    match s {
      case Emit(e, _) => assert Exec(s, m).1[..0] == [];
      case Call(_, _, _) => assert Exec(s, m).1[..0] == [];
      case WhenEqual(_, _, body) => ExecAllFrame(body, m, name, event);
      case WhenSame(_, _, _, body) => ExecAllFrame(body, m, name, event);
      case _ =>
    }
  }

  lemma {:induction false} ExecAllFrame(ss: seq<Statement>, m: Memory, name: string, event: string)
    ensures SameShape(ExecAll(ss, m).0, m)
    ensures name !in WritesAll(ss) ==> Cells(ExecAll(ss, m).0, name) == Cells(m, name)
    ensures event !in EmitsAll(ss) ==> Payloads(ExecAll(ss, m).1, event) == []
    decreases ss
  {
    if ss != [] {
      var (m1, before) := Exec(ss[0], m);
      ExecFrame(ss[0], m, name, event);
      ExecAllFrame(ss[1..], m1, name, event);
      PayloadsAdd(before, ExecAll(ss[1..], m1).1, event);
    }
  }

  lemma {:induction false} ExecTwo(s: Statement, rest: seq<Statement>, m: Memory)
    ensures var (m1, before) := Exec(s, m); var (m2, after) := ExecAll(rest, m1);
            ExecAll([s] + rest, m) == (m2, before + after)
  {
  }

  lemma {:induction false} ExecOne(s: Statement, m: Memory)
    ensures ExecAll([s], m) == Exec(s, m)
  {
    var (m1, effects) := Exec(s, m);
    assert [s][1..] == [] && effects + [] == effects;
    assert ExecAll([s][1..], m1) == (m1, []);
  }

  lemma {:induction false} ExecAppend(xs: seq<Statement>, ys: seq<Statement>, m: Memory)
    ensures var (m1, before) := ExecAll(xs, m); var (m2, after) := ExecAll(ys, m1);
            ExecAll(xs + ys, m) == (m2, before + after)
  {
    if xs == [] {
      assert xs + ys == ys && [] + ExecAll(ys, m).1 == ExecAll(ys, m).1;
    } else {
      assert xs == [xs[0]] + xs[1..] && xs + ys == [xs[0]] + (xs[1..] + ys);
      var (m1, e1) := Exec(xs[0], m);
      var (m2, e2) := ExecAll(xs[1..], m1);
      var (m3, e3) := ExecAll(ys, m2);
      ExecTwo(xs[0], xs[1..] + ys, m);
      ExecAppend(xs[1..], ys, m1);
      assert e1 + (e2 + e3) == (e1 + e2) + e3;
    }
  }

  lemma {:induction false} ConcatSnoc(m: Memory, parts: seq<string>, part: string)
    ensures Concat(m, parts + [part]) == Concat(m, parts) + Cells(m, part)
  {
  }

  lemma {:induction false} ConcatOne(m: Memory, part: string)
    ensures Concat(m, [part]) == Cells(m, part)
  {
  }
}
