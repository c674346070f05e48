/** The optional-value datatype used for the persisted progress value. */
module Wrappers {

  datatype Option<+T> = None | Some(value: T)
}
