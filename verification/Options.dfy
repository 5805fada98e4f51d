/** The datatype for a value that may be missing, such as a C pointer that may be null. */
module Options {
  datatype Option<+T> = None | Some(value: T)
}
