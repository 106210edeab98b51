/** Result and option types used by the table model. */
module Wrappers {

  /** Either a value or an error message (the reducer's `throw`). */
  datatype Result<+T> = Success(value: T) | Failure(error: string)

  /** An optional value: a handler either dispatches one action or none. */
  datatype Option<+T> = None | Some(value: T)
}
