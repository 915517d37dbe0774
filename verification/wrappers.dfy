/** The optional value used where the TypeScript source has an optional field (`error?: string`). */
module Wrappers {

  datatype Option<+T> = None | Some(value: T)
}
