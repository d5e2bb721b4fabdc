/** Failure-compatible wrappers shared by the compiler stages. */
module Outcomes {

  /** An optional value; used for lookups that may find nothing. */
  datatype Option<+T> = None | Some(value: T)

  /** The value of a stage that either succeeds or fails with a typed error. */
  datatype Result<+T, +E> = Ok(value: T) | Err(error: E) {

    predicate IsFailure() {
      Err?
    }

    function PropagateFailure<U>(): Result<U, E>
      requires Err?
    {
      Err(error)
    }

    function Extract(): T
      requires Ok?
    {
      value
    }
  }

  /** The value of a check that either passes or fails with a typed error. */
  datatype Outcome<+E> = Pass | Fail(error: E)
}
