/** Option and Result, the two failure-carrying shapes the decoder returns. */
module Wrappers {

  datatype Option<+T> = None | Some(value: T)

  /** Rust's `Result<T, E>`; usable with `:-` for the `?` operator. */
  datatype Result<+T, +E> = Ok(value: T) | Err(error: E) {

    predicate IsFailure() {
      Err?
    }

    function PropagateFailure<U>(): Result<U, E>
      requires Err?
    {
      Err(error)
    }

    function Extract(): T
      requires Ok?
    {
      value
    }
  }
}
