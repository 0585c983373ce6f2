/** Failure-carrying wrappers shared by the other modules. */
module Wrappers {

  /** An optional value: Go's "value, ok" pairs and nil-able results. */
  datatype Option<+T> = None | Some(value: T)

  /** A value or an error: Go's "(value, error)" return pairs. */
  datatype Result<+R, +E> = Ok(value: R) | Err(error: E)
}
