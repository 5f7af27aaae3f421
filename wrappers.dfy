/** An optional value: TypeScript's `T | undefined` for optional fields. */
module Wrappers {

  datatype Option<+T> = None | Some(value: T)
}
