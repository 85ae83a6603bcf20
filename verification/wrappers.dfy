/** Failure-compatible result types shared by the pipeline stages. */
module Wrappers {

  /** A value that may be absent: a lookup or a search that can come back empty. */
  datatype Option<+T> = None | Some(value: T)

  /** Either the value of a stage that succeeded or the reason it failed. */
  datatype Result<+T, +E> = Ok(value: T) | Err(error: E) {

    predicate IsFailure() {
      Err?
    }

    function PropagateFailure<U>(): Result<U, E>
      requires Err?
    {
      Err(error)
    }

    function Extract(): T
      requires Ok?
    {
      value
    }
  }
}
