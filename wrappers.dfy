/** The Option datatype used for values that JavaScript leaves `undefined` or `NaN`. */
module Wrappers {
  datatype Option<+T> = None | Some(value: T)
}
