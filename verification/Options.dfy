/** A value that may be absent; None is also the NULL pointer. */
module Options {
  datatype Option<+T> = None | Some(value: T)
}
