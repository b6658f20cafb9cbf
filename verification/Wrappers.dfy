/** Results that can be absent or fail. */
module Wrappers {
  datatype Option<+T> = None | Some(value: T)

  datatype Result<+T> = Ok(value: T) | Fail
  {
    predicate IsFailure() { Fail? }

    function PropagateFailure<U>(): Result<U>
      requires Fail?
    {
      Fail
    }

    function Extract(): T
      requires Ok?
    {
      value
    }
  }
}
