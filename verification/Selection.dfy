/** Which connections an operation is meant for (src/client/utils_client.h). */
module Selection {

  /** is_valid: an empty include set means no restriction. */
  predicate IsValid(index: nat, include_: set<nat>, exclude: set<nat>) {
    (include_ == {} || index in include_) && index !in exclude
  }

  /** Of some connections: those included - all of them, if none is - without those excluded. */
  lemma {:induction false} SelectedIs(all: set<nat>, include_: set<nat>, exclude: set<nat>)
    ensures (set i | i in all && IsValid(i, include_, exclude)) ==
            (if include_ == {} then all else all * include_) - exclude
  {
  }
}
