/** Option and Result, the two failure-carrying datatypes used across the model. */
module Wrappers {

  /** `None` stands for Python's `None`; `Some(v)` for a present value. */
  datatype Option<+T> = None | Some(value: T) {
    predicate IsFailure() { None? }

    function PropagateFailure<U>(): Option<U>
      requires None?
    {
      None
    }

    function Extract(): T
      requires Some?
    {
      value
    }
  }

  /** A value, or the message of the exception the source raises instead. */
  datatype Result<+T> = Ok(value: T) | Err(message: string)
}
