/** The optional value used for JavaScript's `undefined` where a token may be absent. */
module Wrappers {

  datatype Option<+T> = None | Some(value: T)
}
