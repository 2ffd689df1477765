/** An optional value, for the source's null pointers and error codes. */
module Options {

  datatype Option<+T> = None | Some(value: T)
}
