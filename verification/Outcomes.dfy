/** Results of code that may throw or report an error, usable with `:-`. */
module Outcomes {

  datatype Option<+T> = None | Some(value: T)

  datatype Outcome<+T> = Ok(value: T) | Throw(message: string) {

    predicate IsFailure() {
      Throw?
    }

    function PropagateFailure<U>(): Outcome<U>
      requires Throw?
    {
      Throw(message)
    }

    function Extract(): T
      requires Ok?
    {
      value
    }
  }
}
