/** Option and Result as the Rust code uses them: `Option<T>` for parsers whose
    error is discarded by their callers, `Result<T, E>` for those whose error is
    handed back. */
module Outcomes {

  datatype Option<T> = None | Some(value: T)

  datatype Result<T, E> = Ok(value: T) | Err(error: E)
}
