/** Failure-carrying values shared by the gallery loader and the link builder. */
module Outcomes {

  /** A value that may be missing (`undefined` in the modelled code). */
  datatype Option<+T> = None | Some(value: T)

  /** A computation that either produced a value or threw. */
  datatype Result<+T, +E> = Ok(value: T) | Err(error: E)
}
