/** The optional value a worker's scan yields: a connection or nothing. */
module Wrappers {
  datatype Option<T> = None | Some(value: T)
}
