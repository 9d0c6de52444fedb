/** Outcomes of the operations of the hashing module: the Python exceptions the
    source raises become an Err value instead of a precondition. */
module Failures {

  /** The exception classes the modelled operations raise. */
  datatype Error = KeyError | IndexError | AssertionError

  datatype Option<+T> = None | Some(value: T)

  datatype Result<+T> = Ok(value: T) | Err(error: Error)
}
