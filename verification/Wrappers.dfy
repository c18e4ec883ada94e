/** Optional values, as `std::optional` in the source. */
module Wrappers {
  datatype Option<+T> = None | Some(value: T)
}
