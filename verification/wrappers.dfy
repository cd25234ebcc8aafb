/** Optional values: `undefined` in the JavaScript source is `None` here. */
module Wrappers {

  datatype Option<+T> = None | Some(value: T)
}
