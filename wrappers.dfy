/** Option and Result values for the model's absent values and error paths. */
module Wrappers {

  /** Python's `None` versus a present value. */
  datatype Option<+T> = None | Some(value: T)

  /** A computation that either yields a value or raises an error named by `error`. */
  datatype Result<+T> = Ok(value: T) | Err(error: string)
}
