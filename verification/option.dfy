/** A value or none, as for a null pointer or a call that may refuse. */
module Options {
  datatype Option<+T> = None | Some(value: T)
}
