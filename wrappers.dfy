/** The optional value used for "an element or nothing", as the handlers'
    `null` returns and `undefined` lookups. */
module Wrappers {

  datatype Option<+T> = None | Some(value: T)
}
