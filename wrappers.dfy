/** A value that may be absent: Go's nil slice, nil pointer or missing map entry. */
module Wrappers {

  datatype Option<+T> = None | Some(value: T)
}
