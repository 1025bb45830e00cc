/** Option and Result, used for the source's `Option`, `Result` and the
    aborts (`unwrap`, `panic!`) the model turns into error values. */
module Outcomes {

  datatype Option<+T> = None | Some(value: T)

  datatype Result<+T, +E> = Ok(value: T) | Err(error: E)
}
