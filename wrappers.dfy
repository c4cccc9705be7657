/** A value that may be missing: the model's stand-in for a NaN in a float array. */
module Wrappers {

  datatype Option<+T> = None | Some(value: T)
}
