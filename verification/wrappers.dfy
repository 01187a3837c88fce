/** The optional-value datatype used throughout the model in place of
    JavaScript's `undefined` / `null`. */
module Wrappers {

  datatype Option<+T> = None | Some(value: T)
}
