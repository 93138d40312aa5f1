/** Option and Result types shared by the template-tag model. */
module Results {

  /** A value that may be absent; `None` stands for Python's `None`. */
  datatype Option<+T> = None | Some(value: T)

  /** The outcome of a step that either produces a value or raises an error. */
  datatype Result<+T, +E> = Ok(value: T) | Err(error: E)
}
