/** A value that may be absent: a reference or struct slot that is still null. */
module Optional {

  datatype Option<+T> = None | Some(value: T)
}
