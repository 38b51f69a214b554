/** Failure-carrying values: the model's stand-in for the exceptions the source throws. */
module Wrappers {

  datatype Option<+T> = None | Some(value: T)

  datatype Result<+T, +E> = Ok(value: T) | Err(error: E)

  /** The .NET exceptions that can escape the modelled core. */
  datatype Fault =
    | InvalidOperation   // Enumerable.First() on an empty sequence
    | KeyNotFound        // Dictionary indexer read with an absent key
}
