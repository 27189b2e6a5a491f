/** Failure-carrying values: `Option` for a lookup that may find nothing or a
    foreign call that may throw, `Result` when the failure carries a reason. */
module Wrappers {

  datatype Option<+T> = None | Some(value: T)

  datatype Result<+T, +E> = Ok(value: T) | Err(error: E)
}
