/** Optional values and the outcome of a computation that may abort the program. */
module Outcomes {

  datatype Option<+T> = None | Some(value: T)

  /** Why the analyzer stops with a panic instead of finishing its run. */
  datatype Panic =
    | InvalidIp           // `expect("Not a valid ip")` on a field that is not a dotted quad
    | NonUnicodePath      // `to_str().unwrap()` on a directory entry whose path is not Unicode
    | SplitOutOfBounds    // `split_at(100)` on a vector with fewer than 100 elements

  /** Either the value a step computes, or the panic that ends the program. */
  datatype Outcome<+T> = Done(value: T) | Aborted(reason: Panic)
}
