/** Option and Result: the model's stand-ins for Go's nil references and (value, error) pairs. */
module Wrappers {

  datatype Option<+T> = None | Some(value: T)

  /** A Go `(value, error)` return in which exactly one side is meaningful. */
  datatype Result<+T> = Ok(value: T) | Err(error: string)
}
