/** The optional value used for pandas' NaN results (a mean that does not exist). */
module Wrappers {
  datatype Option<+T> = None | Some(value: T)
}
