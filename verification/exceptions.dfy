/** The two Python exceptions the engine can raise, as values. */
module Exceptions {

  datatype Exception = IndexError | ValueError

  /** A computed value, or the exception raised instead of returning it. */
  datatype Result<T> = Ok(value: T) | Raise(exc: Exception)

  /** The outcome of a mutation that returns nothing: it completed, or it raised. */
  datatype Outcome = Done | Failed(exc: Exception)
}
