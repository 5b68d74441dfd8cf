/** Optional values: an output vector pointer that may be NULL, a distance bound that may be unset. */
module Wrappers {

  datatype Option<+T> = None | Some(value: T)

}
