/** Absence of a value: JavaScript's `undefined`/`null` where the library
    tests a value for truthiness. */
module Wrappers {

  datatype Option<+T> = None | Some(value: T)

}
