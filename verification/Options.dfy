/** A value that may be absent: a null pointer, a missing argument, an unset record field. */
module Options {
  datatype Option<T> = None | Some(value: T)
}
