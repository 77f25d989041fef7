/** A value that may be missing: a failed read, a trap, a panic. */
module Options {
  datatype Option<+T> = None | Some(value: T)
}
