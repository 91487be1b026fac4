/** Option, Result and Outcome: the source's `None` values and raised
    exceptions become explicit values of these types. */
module Wrappers {

  datatype Option<+T> = None | Some(value: T)

  /** The result of an operation that may raise instead of returning. */
  datatype Result<+T, +E> = Ok(value: T) | Err(error: E)

  /** The result of an operation that returns nothing or raises. */
  datatype Outcome<+E> = Pass | Fail(error: E)
}
