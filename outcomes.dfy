/** Outcome of an operation that the Python source may abort with an exception. */
module Outcomes {

  /** `Ok` carries the value returned; `Err` names the exception that was raised. */
  datatype Result<+T, +E> = Ok(value: T) | Err(error: E)
}
