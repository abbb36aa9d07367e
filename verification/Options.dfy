/** A value that may be missing: Go's second result, or a nil pointer. */
module Options {
  datatype Option<+T> = None | Some(value: T)
}
