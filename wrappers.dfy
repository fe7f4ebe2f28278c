/** Optional values, standing for JavaScript's `undefined`/`null` links and handles. */
module Wrappers {

  datatype Option<+T> = None | Some(value: T)
}
