/** Error handling shared by the modules: the C++ code throws `std::runtime_error`
    with a message; the model returns `Err(message)` instead. */
module Outcome {

  datatype Result<T> = Ok(value: T) | Err(msg: string) {
    predicate IsFailure() { Err? }

    function PropagateFailure<U>(): Result<U>
      requires Err?
    {
      Err(msg)
    }

    function Extract(): T
      requires Ok?
    {
      value
    }
  }

  datatype Option<T> = None | Some(value: T)

  /** A result that carries no value (a `void` function that may throw). */
  datatype Status = Done | Failed(msg: string)
}
