/** Failure-carrying wrappers shared by the modules of this model. */
module Wrappers {

  /** A value that may be missing (a Python call that raises, or returns nothing). */
  datatype Option<+T> = None | Some(value: T)

  /** A value or the error that stopped its computation. */
  datatype Result<+T, +E> = Ok(value: T) | Err(error: E)
}
