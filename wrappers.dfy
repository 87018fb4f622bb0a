/** An optional value: a body field that was submitted (`Some`) or not (`None`). */
module Wrappers {

  datatype Option<+T> = None | Some(value: T)
}
