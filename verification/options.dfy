/** A value or its absence: the source's `v, ok` pairs and values that may be nil. */
module Options {
  datatype Option<T> = None | Some(value: T)
}
