/** Optional values, standing for the header's `nonstd::optional`. */
module Wrappers {

  datatype Option<+T> = None | Some(value: T)

}
