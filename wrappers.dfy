/** The optional value the source expresses with `undefined` and `null`. */
module Wrappers {

  datatype Option<T> = None | Some(value: T)
}
