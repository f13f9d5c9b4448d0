/** Optional values, standing in for JavaScript's `undefined`/`null` and Java's `Optional`. */
module Wrappers {

  datatype Option<+T> = None | Some(value: T)
}
