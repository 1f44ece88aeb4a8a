/** A value that may be absent: a null pointer, a search without a match, or a step that the program cannot take. */
module Wrappers {

  datatype Option<T> = None | Some(value: T)
}
