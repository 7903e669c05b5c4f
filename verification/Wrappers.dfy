/** Result shapes shared by the other modules. */
module Wrappers {

  datatype Option<+T> = None | Some(value: T)

  /** A computation that either runs forever or ends with a value. */
  datatype Outcome<+T> = Diverges | Returns(value: T)
}
