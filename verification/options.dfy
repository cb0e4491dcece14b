/** The optional result used where the source would index past the end of a vector. */
module Options {
  datatype Option<T> = None | Some(value: T)
}
