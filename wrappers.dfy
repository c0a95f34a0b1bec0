/** Failure-carrying results shared by all the ciphers and the signature scheme. */
module Wrappers {
  /** An optional value; `None` stands for Python's `None` or for a computation that did not finish. */
  datatype Option<T> = None | Some(value: T)

  /** The result of an operation that either succeeds or reports an error. */
  datatype Result<T, E> = Ok(value: T) | Err(error: E)
}
