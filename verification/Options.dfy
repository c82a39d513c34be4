/** The nullable and optional values of the service. */
module Options {
  datatype Option<+T> = None | Some(value: T)
}
