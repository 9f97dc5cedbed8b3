/** Failure-carrying return types shared by the other modules. */
module Results {

  /** The absent-or-present value; `None` models Python's `None` results. */
  datatype Option<+T> = None | Some(value: T)

  /** Either a value or the error the source would raise instead. */
  datatype Result<+T, +E> = Ok(value: T) | Err(error: E)
}
