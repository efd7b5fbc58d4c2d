/** A value or its absence: TypeScript's `T | undefined`. */
module Options {
  datatype Option<+T> = None | Some(value: T)
}
