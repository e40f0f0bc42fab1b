/** The optional value used for "no falling piece" and "no first selection". */
module Options {
  datatype Option<T> = None | Some(value: T)
}
