/** The optional value used for listener slots and for the arguments a caller may omit. */
module Options {

  /** `None` plays the part of JavaScript's `null`/`undefined`. */
  datatype Option<+T> = None | Some(value: T)
}
