/** Failure-carrying results. The source reports every error by throwing an
    exception with a message; here such an exception is an `Err`/`Fail` value
    carrying the same message text. */
module Errors {

  /** The result of an operation that either yields a value or throws. */
  datatype Result<T> = Ok(value: T) | Err(msg: string)

  /** The result of an operation that yields nothing or throws. */
  datatype Status = Pass | Fail(msg: string)

  /** A value that may be absent; `None` stands for the source's `null`. */
  datatype Option<T> = None | Some(value: T)
}
