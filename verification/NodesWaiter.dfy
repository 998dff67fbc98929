/** Waiting until enough nodes are connected: AwaitedNodes in src/client/awaited.h and wait_nodes in
    src/client/client.h. */
module NodesWaiter {

  /** Node ids by connection. */
  type Found = map<nat, set<nat>>

  function Pairs(m: Found): set<(nat, nat)> {
    set t, n | t in m && n in m[t] :: (t, n)
  }

  function PairsOn(t: nat, ns: set<nat>): set<(nat, nat)> {
    set n | n in ns :: (t, n)
  }

  lemma {:induction false} CountOn(t: nat, ns: set<nat>)
    ensures |PairsOn(t, ns)| == |ns|
  {
    if ns == {} {
      assert PairsOn(t, ns) == {};
    } else {
      var n :| n in ns;
      CountOn(t, ns - {n});
      assert PairsOn(t, ns) == PairsOn(t, ns - {n}) + {(t, n)};
    }
  }

  lemma {:induction false} PairsSplit(m: Found, t: nat)
    requires t in m
    ensures |Pairs(m)| == |m[t]| + |Pairs(m - {t})|
  {
    CountOn(t, m[t]);
    assert Pairs(m) == PairsOn(t, m[t]) + Pairs(m - {t});
    assert PairsOn(t, m[t]) !! Pairs(m - {t});
  }

  method Count(m: Found) returns (num: nat)
    ensures num == |Pairs(m)|
  {
    num := 0;
    var rest := m;
    while rest != map[]
      invariant num + |Pairs(rest)| == |Pairs(m)|
      decreases rest.Keys
    {
      var t :| t in rest;
      PairsSplit(rest, t);
      num := num + |rest[t]|;
      assert (rest - {t}).Keys < rest.Keys;
      rest := rest - {t};
    }
  }

  function Insert(m: Found, t: nat, n: nat): (r: Found)
    ensures Pairs(r) == Pairs(m) + {(t, n)}
  {
    var r := m[t := (if t in m then m[t] else {}) + {n}];
    assert forall p :: p in Pairs(r) <==> p in Pairs(m) || p == (t, n);
    r
  }

  /** A node connection: node n on connection t. */
  datatype Connection = Connection(node: nat, target: nat)

  /** An empty set stands for all. */
  predicate Admits(candidates: set<nat>, targets: set<nat>, c: Connection) {
    (candidates == {} || c.node in candidates) && (targets == {} || c.target in targets)
  }

  /** The pairs gathered from an initial set and the first n of a list of connections. */
  function Gathered(initial: set<(nat, nat)>, candidates: set<nat>, targets: set<nat>, cs: seq<Connection>,
      n: nat): set<(nat, nat)>
    requires n <= |cs|
  {
    if n == 0 then initial
    else
      var c := cs[n - 1];
      Gathered(initial, candidates, targets, cs, n - 1) + if Admits(candidates, targets, c) then {(c.target, c.node)}
        else {}
  }

  class AwaitedNodes {
    const candidates: set<nat>
    const targets: set<nat>
    const number: int
    var value: Found

    constructor (candidates: set<nat>, targets: set<nat>, number: int, value: Found)
      ensures this.candidates == candidates
      ensures this.targets == targets
      ensures this.number == number
      ensures this.value == value
    {
      this.candidates, this.targets, this.number, this.value := candidates, targets, number, value;
    }

    method Update(c: Connection) returns (r: bool)
      modifies this
      ensures Pairs(value) == old(Pairs(value)) + if Admits(candidates, targets, c) then {(c.target, c.node)} else {}
      ensures r <==> Admits(candidates, targets, c) && number >= 0 && |Pairs(value)| >= number
    {
      if candidates != {} && c.node !in candidates {
        return false;
      }
      if targets != {} && c.target !in targets {
        return false;
      }
      value := Insert(value, c.target, c.node);
      var num := Count(value);
      r := number >= 0 && num >= number;
    }

    /** One more connection of a list. */
    method TakeNext(ghost initial: set<(nat, nat)>, cs: seq<Connection>, k: nat) returns (r: bool)
      requires k < |cs| && Pairs(value) == Gathered(initial, candidates, targets, cs, k)
      modifies this
      ensures Pairs(value) == Gathered(initial, candidates, targets, cs, k + 1)
      ensures r <==> Enough(initial, candidates, targets, number, cs, k)
    {
      r := Update(cs[k]);
    }

    /** Connections are looked at until the waiter is complete: at the first admissible one with which there
        are enough different pairs. */
    method Run(cs: seq<Connection>) returns (complete: bool, used: nat)
      modifies this
      ensures used <= |cs|
      ensures Pairs(value) == Gathered(old(Pairs(value)), candidates, targets, cs, used)
      ensures complete ==> used > 0 && Enough(old(Pairs(value)), candidates, targets, number, cs, used - 1)
      ensures !complete ==> used == |cs|
      ensures forall k :: 0 <= k < used && !(complete && k == used - 1) ==>
                !Enough(old(Pairs(value)), candidates, targets, number, cs, k)
    {
      complete, used := false, 0;
      ghost var initial := Pairs(value);
      while used < |cs| && !complete
        invariant used <= |cs| && Pairs(value) == Gathered(initial, candidates, targets, cs, used)
        invariant complete ==> used > 0 && Enough(initial, candidates, targets, number, cs, used - 1)
        invariant forall k :: 0 <= k < used && !(complete && k == used - 1) ==>
                    !Enough(initial, candidates, targets, number, cs, k)
        decreases |cs| - used
      {
        complete := TakeNext(initial, cs, used);
        used := used + 1;
      }
    }
  }

  ghost predicate Enough(initial: set<(nat, nat)>, candidates: set<nat>, targets: set<nat>, number: int,
      cs: seq<Connection>, k: nat) {
    && k < |cs| && Admits(candidates, targets, cs[k])
    && number >= 0
    && |Gathered(initial, candidates, targets, cs, k + 1)| >= number
  }

  /** How many nodes are waited for: all the candidates, if no number is given. */
  function Wanted(candidates: set<nat>, number: int): int {
    if number < 0 && candidates != {} then |candidates| else number
  }

  function Among(pairs: set<(nat, nat)>, candidates: set<nat>): set<(nat, nat)> {
    set p | p in pairs && (candidates == {} || p.1 in candidates)
  }

  lemma {:induction false} AmongOneMore(pairs: set<(nat, nat)>, candidates: set<nat>, p: (nat, nat))
    requires p !in pairs
    ensures Among(pairs + {p}, candidates) == Among(pairs, candidates) + if candidates == {} || p.1 in candidates
            then {p} else {}
    ensures p !in Among(pairs, candidates)
  {
  }

  function Candidates(nodes: Found, candidates: set<nat>): set<(nat, nat)> {
    Among(Pairs(nodes), candidates)
  }

  /** wait_nodes: the nodes connected already are returned at once only if they are exactly as many as
      wanted, and the callback is called; otherwise they are what the waiter starts from. */
  method WaitNodes(nodes: Found, candidates: set<nat>, number: int, targets: set<nat>, callback: bool)
    returns (done: bool, current: Found, calls: seq<(Found, bool)>, waiter: AwaitedNodes)
    ensures Pairs(current) == Candidates(nodes, candidates)
    ensures done <==> |Candidates(nodes, candidates)| == Wanted(candidates, number)
    ensures calls == if done && callback then [(current, true)] else []
    ensures fresh(waiter)
    ensures waiter.value == current
    ensures waiter.number == Wanted(candidates, number)
    ensures waiter.candidates == candidates
    ensures waiter.targets == targets
  {
    var wanted := if number < 0 && candidates != {} then |candidates| else number;
    var num;
    num, current := Connected(nodes, candidates);
    done := num == wanted;
    calls := if done && callback then [(current, true)] else [];
    waiter := new AwaitedNodes(candidates, targets, wanted, current);
  }

  /** The loop over the nodes connected already. */
  method Connected(nodes: Found, candidates: set<nat>) returns (num: nat, current: Found)
    ensures Pairs(current) == Candidates(nodes, candidates)
    ensures num == |Candidates(nodes, candidates)|
  {
    num, current := 0, map[];
    var all, seen: set<(nat, nat)> := Pairs(nodes), {};
    assert Among({}, candidates) == {};
    while all - seen != {}
      invariant seen <= all && Pairs(current) == Among(seen, candidates) && num == |Among(seen, candidates)|
      decreases all - seen
    {
      var p :| p in all - seen;
      num, current := Consider(num, current, seen, candidates, p);
      seen := seen + {p};
    }
    assert seen == all;
  }

  method Consider(num: nat, current: Found, ghost seen: set<(nat, nat)>, candidates: set<nat>, p: (nat, nat))
    returns (num': nat, current': Found)
    requires p !in seen && Pairs(current) == Among(seen, candidates) && num == |Among(seen, candidates)|
    ensures Pairs(current') == Among(seen + {p}, candidates)
    ensures num' == |Among(seen + {p}, candidates)|
  {
    AmongOneMore(seen, candidates, p);
    num', current' := num, current;
    if candidates == {} || p.1 in candidates {
      num', current' := num + 1, Insert(current, p.0, p.1);
    }
  }

  lemma {:induction false} GatheredGrows(initial: set<(nat, nat)>, candidates: set<nat>, targets: set<nat>,
      cs: seq<Connection>, n: nat)
    requires n <= |cs|
    ensures initial <= Gathered(initial, candidates, targets, cs, n)
  {
    if n > 0 { GatheredGrows(initial, candidates, targets, cs, n - 1); }
  }

  lemma {:induction false} SubsetCount<T>(a: set<T>, b: set<T>)
    requires a <= b
    ensures |a| <= |b|
  {
    if a != {} {
      var x :| x in a;
      SubsetCount(a - {x}, b - {x});
    }
  }

  /** More nodes than wanted are not noticed at once: it then takes one more connection, of any admissible
      node, even of one that is connected already. */
  lemma {:induction false} TooManyNeedOneMore(nodes: Found, candidates: set<nat>, number: int, targets: set<nat>,
      c: Connection)
    requires Wanted(candidates, number) >= 0 && |Candidates(nodes, candidates)| > Wanted(candidates, number)
    ensures !(|Candidates(nodes, candidates)| == Wanted(candidates, number))
    ensures Enough(Candidates(nodes, candidates), candidates, targets, Wanted(candidates, number), [c], 0) <==>
            Admits(candidates, targets, c)
  {
    var initial := Candidates(nodes, candidates);
    GatheredGrows(initial, candidates, targets, [c], 1);
    SubsetCount(initial, Gathered(initial, candidates, targets, [c], 1));
  }

  /** The pairs gathered are the initial ones and those of the connections to one of the targets, if there are
      any, from one of the candidates, if there are any. */
  lemma {:induction false} GatheredIs(initial: set<(nat, nat)>, candidates: set<nat>, targets: set<nat>,
      cs: seq<Connection>, n: nat)
    ensures n <= |cs| ==>
            Gathered(initial, candidates, targets, cs, n) == initial +
            set k | 0 <= k < n && (cs[k].node in candidates || candidates == {})
                    && (cs[k].target in targets || targets == {}) :: (cs[k].target, cs[k].node)
  {
    if 0 < n <= |cs| {
      GatheredIs(initial, candidates, targets, cs, n - 1);
    }
  }

  /** On one connection: without a number, wait_nodes returns at once exactly if all candidates are connected. */
  lemma {:induction false} CandidatesConnectedIff(target: nat, nodes: set<nat>, candidates: set<nat>, number: int)
    ensures candidates != {} && number < 0 ==>
            (|Candidates(map[target := nodes], candidates)| == Wanted(candidates, number) <==> candidates <= nodes)
  {
    if candidates != {} && number < 0 {
      assert Candidates(map[target := nodes], candidates) == PairsOn(target, nodes * candidates);
      CountOn(target, nodes * candidates);
      SubsetCount(nodes * candidates, candidates);
      if |nodes * candidates| == |candidates| { SameCount(nodes * candidates, candidates); }
      if candidates <= nodes { assert nodes * candidates == candidates; }
    }
  }

  lemma {:induction false} SameCount<T>(a: set<T>, b: set<T>)
    requires a <= b && |a| == |b|
    ensures a == b
  {
    if x :| x in b && x !in a { SubsetCount(a, b - {x}); }
  }

  /** With a number, exactly if so many nodes are, of the candidates if there are any; with neither, never. */
  lemma {:induction false} NumberConnectedIff(target: nat, nodes: set<nat>, candidates: set<nat>, number: int)
    ensures number >= 0 || candidates == {} ==>
            (|Candidates(map[target := nodes], candidates)| == Wanted(candidates, number) <==>
              |if candidates == {} then nodes else nodes * candidates| == number)
  {
    var those := if candidates == {} then nodes else nodes * candidates;
    assert Candidates(map[target := nodes], candidates) == PairsOn(target, those);
    CountOn(target, those);
  }
}
