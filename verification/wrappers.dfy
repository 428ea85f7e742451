/** Option and Result, the two failure-carrying shapes the server's Rust code
    uses (`Option<T>` and `Result<T, E>`). Option supports `:-`, so a chain
    of fallible reads stops at the first `None`. */
module Wrappers {

  datatype Option<+T> = None | Some(value: T) {

    predicate IsFailure() {
      None?
    }

    function PropagateFailure<U>(): Option<U>
      requires None?
    {
      None
    }

    function Extract(): T
      requires Some?
    {
      value
    }
  }

  datatype Result<+T, +E> = Success(value: T) | Failure(error: E)
}
