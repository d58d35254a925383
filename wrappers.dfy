/** Option and Result datatypes shared by the token modules. */
module Wrappers {

  /** Python's `None` or a present value. */
  datatype Option<+T> = None | Some(value: T)

  /** A value, or the exception a call raises instead of returning. */
  datatype Result<+T, +E> = Ok(value: T) | Err(error: E)
}
