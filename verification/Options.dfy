/** A value that may be missing: Go's nil, or a second result that is false. */
module Options {

  datatype Option<+T> = None | Some(value: T)
}
