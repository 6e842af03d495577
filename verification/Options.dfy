/** A value that may be missing: a null pointer, a failed call or a query without an answer. */
module Options {

  datatype Option<+T> = None | Some(value: T)
}
