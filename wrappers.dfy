/** The optional value a query returns: a row, or nothing (Python's None). */
module Wrappers {

  datatype Option<+T> = None | Some(value: T)

}
