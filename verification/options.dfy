/** A value that may be missing: JavaScript's `null`/`undefined` next to a real value. */
module Options {

  datatype Option<T> = None | Some(value: T)
}
