/** The optional value used wherever a query may return no row. */
module Wrappers {
  datatype Option<+T> = None | Some(value: T)
}
