/** A result that may be missing: a null pointer, or a call that ended in a panic. */
module Options {
  datatype Option<T> = None | Some(value: T)
}
