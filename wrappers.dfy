/** Option and Result, used for Ruby's nil-or-value returns and for
    exceptions that propagate out of a call. */
module Wrappers {

  datatype Option<+T> = None | Some(value: T)

  datatype Result<+T, +E> = Ok(value: T) | Err(error: E)
}
