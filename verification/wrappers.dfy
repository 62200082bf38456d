/** The optional-value datatype used wherever the TypeScript code has `T | null`
    or an optional property. */
module Wrappers {

  datatype Option<+T> = None | Some(value: T)
}
