/** The usual Some/None wrapper, used where the source yields `null`. */
module Optional {
  datatype Option<+T> = None | Some(value: T)
}
