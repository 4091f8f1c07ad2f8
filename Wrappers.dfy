/** The optional value used where the source yields `undefined`, `null`
    or throws for an input it cannot handle. */
module Wrappers {
  datatype Option<T> = None | Some(value: T)
}
