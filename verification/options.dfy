/** A value that may be absent: a NULL pointer, or a write that does not happen. */
module Options {
  datatype Option<T> = None | Some(value: T)
}
