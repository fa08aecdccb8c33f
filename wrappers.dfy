/** The optional value used wherever JavaScript would produce `null` or `NaN`. */
module Wrappers {

  datatype Option<+T> = None | Some(value: T)
}
