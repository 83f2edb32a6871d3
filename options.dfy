/** The optional value used wherever the original returns a pointer that may be null. */
module Options {

  datatype Option<+T> = None | Some(value: T)
}
