/** The result of a step that may end the program with an exit status. */
module Outcomes {
  datatype Outcome<T> = Done(value: T) | Exit(code: int)

  datatype Option<T> = None | Some(value: T)
}
