/** Python's "an object or None", as a value. */
module Optional {

  datatype Option<+T> = None | Some(value: T)
}
