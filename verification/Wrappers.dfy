/** Shared result types. */
module Wrappers {

  datatype Option<+T> = None | Some(value: T)

  /** A result or an error, for operations that return either. */
  datatype Result<+T, +E> = Ok(value: T) | Err(error: E) {
    predicate IsFailure() { Err? }
    function PropagateFailure<U>(): Result<U, E>
      requires Err?
    {
      Err(error)
    }
    function Extract(): T
      requires Ok?
    {
      value
    }
  }
}
