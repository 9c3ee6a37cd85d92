/** The usual optional value; C's NULL pointer is `None`. */
module Options {
  datatype Option<+T> = None | Some(value: T)
}
