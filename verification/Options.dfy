/** A value that may be missing; also the result of an operation whose errors are not told apart. */
module Options {
  datatype Option<T> = None | Some(value: T)
}
