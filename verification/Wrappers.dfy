/** The result types the other modules share. */
module Wrappers {

  datatype Option<+T> = None | Some(value: T)

  /** What running a piece of code comes to: an error result, a write outside a fixed table or buffer, or a value. */
  datatype Outcome<+T> = Rejected | Overrun | Accepted(value: T)
}
