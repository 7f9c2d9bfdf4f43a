/** The optional value used for the table cells that may be missing (NaN in the table). */
module Wrappers {

  datatype Option<+T> = None | Some(value: T)
}
