/** The conventional Some/None datatype, used for JSON values that may be null. */
module Optional {

  datatype Option<+T> = None | Some(value: T)
}
