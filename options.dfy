/** The `null` that the matrix operations return on failure. */
module Options {

  datatype Option<T> = None | Some(value: T)
}
