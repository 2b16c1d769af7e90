/** Small value wrappers shared by the modules of the opaque-id model. */
module Wrappers {

  /** An optional value: JavaScript's `undefined` is `None`. */
  datatype Option<+T> = None | Some(value: T)
}
