/** Failure-carrying result types shared by every module of the model.
    A Rust `Option` maps to `Option`; a Rust `Result`, and every `unwrap`,
    `expect` or out-of-bounds index that would panic, maps to `Result`. */
module Wrappers {

  datatype Option<+T> = None | Some(value: T)

  datatype Result<+T, +E> = Ok(value: T) | Err(error: E) {

    predicate IsFailure() {
      Err?
    }

    function PropagateFailure<U>(): Result<U, E>
      requires Err?
    {
      Err(error)
    }

    function Extract(): T
      requires Ok?
    {
      value
    }
  }
}
