/** An optional value: the result of a lookup that can find nothing, or of
    an operation that has nothing to produce. */
module Options {
  datatype Option<T> = None | Some(value: T)
}
