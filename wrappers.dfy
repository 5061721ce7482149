/** Optional values, standing for the source's nullable pointers and callbacks. */
module Wrappers {

  datatype Option<+T> = None | Some(value: T)
}
