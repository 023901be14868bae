/** Small value wrappers shared by the other modules. */
module Common {

  /** A value that may be absent: a missing dictionary key or a JSON `null`. */
  datatype Option<+T> = None | Some(value: T)
}
