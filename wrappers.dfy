/** Optional values: a JavaScript value that may be `undefined`/`null`, or a storage key with nothing under it. */
module Wrappers {

  datatype Option<+T> = None | Some(value: T)
}
