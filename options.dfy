/** The optional value used throughout the model for JavaScript's `null`/`undefined`
    and for operations that throw. */
module Options {
  datatype Option<+T> = None | Some(value: T)
}
