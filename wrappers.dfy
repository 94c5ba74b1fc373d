/** The optional value used where the source returns `false` for "no such node". */
module Wrappers {

  datatype Option<T> = None | Some(value: T)
}
