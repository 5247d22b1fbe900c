/** The failure-carrying results of the model: the exceptions String.java
    raises become `Err` values, so that every error path is a result and
    not a precondition. */
module Failures {

  /** The kinds of exception the modelled operations raise. */
  datatype Exception =
    | StringIndexOutOfBounds   // an index, offset or range outside the value
    | IndexOutOfBounds         // the same, where String.java raises the general kind
    | IllegalArgument          // a negative repeat count, an invalid code point
    | OutOfMemory              // a result too large for a Java array

  datatype Option<+T> = None | Some(value: T)

  datatype Result<+T> = Ok(value: T) | Err(error: Exception) {
    predicate IsFailure() { Err? }

    function PropagateFailure<U>(): Result<U>
      requires Err?
    {
      Err(error)
    }

    function Extract(): T
      requires Ok?
    {
      value
    }
  }

  /** The outcome of a check that returns nothing when it passes. */
  datatype Outcome = Pass | Fail(error: Exception) {
    predicate IsFailure() { Fail? }

    function PropagateFailure<U>(): Result<U>
      requires Fail?
    {
      Err(error)
    }
  }
}
