/** Values that may be absent, for exceptions and null results alike. */
module Options {

  datatype Option<+T> = None | Some(value: T)
}
