/** The cells of an Aseba memory: int16, into which an int is stored modulo 2^16 in C++ and on the robot, and
    into which the Python bindings refuse to convert any int that does not fit. */
module Int16Cells {

  predicate IsInt16(x: int) {
    -32768 <= x <= 32767
  }

  predicate AllInt16(xs: seq<int>) {
    forall k :: 0 <= k < |xs| ==> IsInt16(xs[k])
  }

  /** The int16 an int is stored as. */
  function Wrap(x: int): int {
    (x + 32768) % 65536 - 32768
  }

  function WrapAll(xs: seq<int>): (r: seq<int>)
    ensures |r| == |xs| && forall k :: 0 <= k < |xs| ==> r[k] == Wrap(xs[k])
  {
    seq(|xs|, k requires 0 <= k < |xs| => Wrap(xs[k]))
  }

  lemma {:induction false} WrapIsExactInRange(x: int)
    ensures IsInt16(Wrap(x)) && (Wrap(x) == x <==> IsInt16(x))
  {
  }

  /** Storing keeps exactly the lists of int16. */
  lemma {:induction false} WrapAllIsExact(xs: seq<int>)
    ensures WrapAll(xs) == xs <==> AllInt16(xs)
  {
    forall k | 0 <= k < |xs| ensures WrapAll(xs)[k] == xs[k] <==> IsInt16(xs[k]) { WrapIsExactInRange(xs[k]); }
  }

  /** Wrapping every partial sum is wrapping the sum. */
  lemma {:induction false} WrapAdd(x: int, y: int)
    ensures Wrap(Wrap(x) + y) == Wrap(x + y)
  {
  }
}
