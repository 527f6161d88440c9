/** The optional value returned by lookups (`undefined` in the store's own language). */
module Wrappers {

  datatype Option<+T> = None | Some(value: T)
}
