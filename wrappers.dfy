/** Failure-carrying results for operations that raise in the original program. */
module Wrappers {

  datatype Option<+T> = None | Some(value: T)

  /** Why an operation failed: the exception the original program raises. */
  datatype Error =
    | InvalidPattern      // ValueError("Ungültiger Wert!") for a pattern outside 1..5
    | EqualEndpoints      // ValueError("Ungültiger Wert!") for a segment whose two edges coincide mod 6
    | EmptyGrid           // IndexError: the legacy detector prints segment_group_list[0]
    | NoPairBelowSentinel // UnboundLocalError: no bucket pair beats the 10000000 sentinel

  datatype Result<+T> = Ok(value: T) | Err(error: Error)
}
