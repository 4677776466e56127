/** Optional values, standing for the nil pointers and nil interfaces of the source. */
module Wrappers {

  datatype Option<+T> = None | Some(value: T)
}
