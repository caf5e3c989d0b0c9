/** The optional value the layout returns where Swift returns an optional. */
module Wrappers {

  datatype Option<+T> = None | Some(value: T)
}
