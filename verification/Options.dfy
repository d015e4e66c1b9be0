/** A value that may be absent: nil pointers, NULL columns, missing JSON fields and nil errors. */
module Options {
  datatype Option<T> = None | Some(value: T)
}
