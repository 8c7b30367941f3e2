/** Option and Result: the source's optional values and its thrown errors. */
module Wrappers {
  datatype Option<+T> = None | Some(value: T)

  /** A thrown error is `Err`; error messages and paths are not modelled. */
  datatype Result<+T> = Ok(value: T) | Err {
    predicate IsFailure() {
      Err?
    }

    function PropagateFailure<U>(): Result<U>
      requires Err?
    {
      Err
    }

    function Extract(): T
      requires Ok?
    {
      value
    }
  }
}
