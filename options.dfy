/** An optional value: the outcome of every checked operation that can fail. */
module Options {
  datatype Option<+T> = None | Some(value: T)
}
