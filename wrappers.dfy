/** The optional-value type shared by the emitter and the reconciler. */
module Wrappers {

  datatype Option<+T> = None | Some(value: T)
}
