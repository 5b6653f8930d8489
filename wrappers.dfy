/** Option and Result: the parser's assertions and Python exceptions become
    explicit error values. */
module Wrappers {

  datatype Option<+T> = None | Some(value: T)

  datatype Result<+T, +E> = Ok(value: T) | Err(error: E)
}
