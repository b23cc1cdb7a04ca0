/** Result types shared by every component. */
module Outcomes {

  datatype Option<+T> = None | Some(value: T)

  /** What a call into the modelled code ends in: a value, an error return, or a panic
      (arithmetic overflow, a failed `expect`, a slice out of range). */
  datatype Outcome<+T> = Ok(value: T) | Err(error: string) | Panic(why: string) {

    predicate IsFailure() {
      !Ok?
    }

    function PropagateFailure<U>(): Outcome<U>
      requires IsFailure()
    {
      match this
      case Err(error) => Err(error)
      case Panic(why) => Panic(why)
    }

    function Extract(): T
      requires Ok?
    {
      value
    }
  }

  /** An error return when `condition` fails. */
  function Need(condition: bool, error: string): Outcome<()> {
    if condition then Ok(()) else Err(error)
  }
}
