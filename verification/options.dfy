/** An optional value, for the results the games leave undefined or refuse. */
module Options {
  datatype Option<T> = None | Some(value: T)
}
