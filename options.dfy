/** The conventional Some/None datatype, used for Python's None. */
module Options {

  datatype Option<+T> = None | Some(value: T)
}
