/** Option and Result, for the library calls whose failure the program
    either unwraps or propagates with `?`. */
module Wrappers {

  datatype Option<+T> = None | Some(value: T)

  datatype Result<+T, +E> = Ok(value: T) | Err(error: E)
}
