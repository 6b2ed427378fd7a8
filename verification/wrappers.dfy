/** The optional value used for results that can be absent. */
module Wrappers {

  datatype Option<T> = None | Some(value: T)
}
