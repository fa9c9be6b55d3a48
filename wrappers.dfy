/** An optional value shared by the other modules. */
module Wrappers {

  /** A value that may be absent: a token that does not parse, or no touch point this tick. */
  datatype Option<+T> = None | Some(value: T)
}
