/** Results of operations that can fail, shared by every part of the model. */
module Outcomes {

  datatype Option<+T> = None | Some(value: T)

  function OptionToSeq<T>(o: Option<T>): (s: seq<T>) {
    if o.Some? then [o.value] else []
  }

  datatype Result<+T, +E> = Ok(value: T) | Err(error: E) {

    predicate IsFailure() {
      Err?
    }

    function PropagateFailure<U>(): Result<U, E>
      requires Err?
    {
      Err(error)
    }

    function Extract(): T
      requires Ok?
    {
      value
    }
  }
}
