/** Failure-carrying wrappers shared by every module of the model. */
module Wrappers {

  /** An optional value: `None` stands for "nothing stored". */
  datatype Option<+T> = None | Some(value: T)

  /** The outcome of an operation that throws in the original: `Err` carries
      the kind of exception that would have been raised. */
  datatype Result<+T, +E> = Ok(value: T) | Err(error: E) {

    predicate IsFailure() {
      Err?
    }

    function PropagateFailure<U>(): Result<U, E>
      requires Err?
    {
      Err(error)
    }

    function Extract(): T
      requires Ok?
    {
      value
    }
  }
}
