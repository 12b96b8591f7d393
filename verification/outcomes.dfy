/** Failure-carrying values shared by the signal and script models.
    `Option` stands for Python's `None`-or-value, `Result` for a value or a raised exception. */
module Outcomes {

  datatype Option<+T> = None | Some(value: T)

  datatype Result<+T, +E> = Ok(value: T) | Err(error: E)
}
