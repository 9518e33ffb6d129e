/** Option and Result, for values the source represents as "may be None" and
  * for computations that may raise. */
module Wrappers {

  datatype Option<+T> = None | Some(value: T)

  datatype Result<+T, +E> = Ok(value: T) | Err(error: E)
}
