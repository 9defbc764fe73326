// Which statements fail. Any may: the schedule of a store's failures is arbitrary, but it is fixed, so that
// a failure answered can be told from one made up.

module Faults {

  // Whether the k-th statement of a store fails.
  type Schedule = nat -> bool

  ghost predicate Faulted(faulty: Schedule, from: nat, to: nat) {
    exists k: nat :: from <= k < to && faulty(k)
  }
}
