/** An optional value: Python's None, or the value that is there. */
module Wrappers {

  datatype Option<T> = None | Some(value: T)
}
