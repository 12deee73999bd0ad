/** Failure-carrying result types shared by the whole model. Go returns
    `(value, error)` pairs; here a value is either `Ok` or an `Err` that
    carries a typed description of what went wrong. */
module Outcome {

  datatype Option<+T> = None | Some(value: T)

  datatype Result<+T, +E> = Ok(value: T) | Err(error: E)
}
