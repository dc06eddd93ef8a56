/** Small value types shared by the modules of this model. */
module Options {

  /** A possibly missing value: a C pointer that may be NULL. */
  datatype Option<+T> = None | Some(value: T)
}
