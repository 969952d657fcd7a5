/** A value that may be absent: Python's `None`, or the result of an operation that raises. */
module Wrappers {

  datatype Option<T> = None | Some(value: T)
}
