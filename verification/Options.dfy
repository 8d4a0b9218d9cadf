/** Values that may be missing, in place of nil. */
module Options {

  datatype Option<+T> = None | Some(value: T)
}
