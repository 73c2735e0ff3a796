/** A value that may be absent: JavaScript's `null` for the carousel's closure variables. */
module Wrappers {

  datatype Option<+T> = None | Some(value: T)

}
