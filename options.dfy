/** Failure-compatible wrappers used by the model: a value that may be absent,
    a check that passes or fails, and a computation that yields a value or fails. */
module Options {

  datatype Option<+T> = None | Some(value: T)

  datatype Outcome<+E> = Pass | Fail(error: E)

  datatype Result<+R, +E> = Ok(value: R) | Err(error: E)
}
