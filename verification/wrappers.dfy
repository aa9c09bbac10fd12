/** An optional value, used where the calculator answers with a sentinel
    instead of a value. */
module Wrappers {

  datatype Option<+T> = None | Some(value: T)
}
