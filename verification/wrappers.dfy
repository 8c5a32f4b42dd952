/** Failure-carrying datatypes shared by the other modules. */
module Wrappers {

  /** An optional value: `None` when absent. */
  datatype Option<+T> = None | Some(value: T)

  /** Either a value or the error that prevented computing it. */
  datatype Result<+T, +E> = Ok(value: T) | Err(error: E)
}
