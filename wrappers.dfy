/** Failure-compatible result types shared by the model's modules. */
module Wrappers {

  /** A value that may be missing; `None` stands for Java's `null`. */
  datatype Option<T> = None | Some(value: T)

  /** The outcome of an operation that can fail; `Err` stands for a thrown exception. */
  datatype Result<T, E> = Ok(value: T) | Err(error: E) {
    predicate IsFailure() { Err? }

    function PropagateFailure<U>(): Result<U, E>
      requires Err?
    {
      Err(error)
    }

    function Extract(): T
      requires Ok?
    {
      value
    }
  }
}
