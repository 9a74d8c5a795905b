/** A value that may be missing: null pointers, unset fields and failed searches. */
module Options {
  datatype Option<T> = None | Some(value: T)
}
