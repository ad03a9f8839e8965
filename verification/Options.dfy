/** A value that may be absent: a null pointer or a failed call. */
module Options {
  datatype Option<+T> = None | Some(value: T)
}
