// Failure-carrying return values shared by the modules of this model.
module Results {

  /** An optional value; `None` also stands for Python's `None`/SQL NULL where noted. */
  datatype Option<+T> = None | Some(value: T)

  /** The value of an operation that either succeeds or raises an error. */
  datatype Result<+T, +E> = Success(value: T) | Failure(error: E)
}
