/** Option and Result, the failure-carrying values used across the model. */
module Wrappers {

  /** A value that may be absent: `null`, `undefined`, `NaN` or a caught exception in the source. */
  datatype Option<+T> = None | Some(value: T)

  /** The outcome of an early-return pipeline: its value, or the check that stopped it. */
  datatype Result<+T, +E> = Ok(value: T) | Err(error: E)
}
