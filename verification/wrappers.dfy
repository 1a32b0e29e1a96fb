/** Optional values: the model's stand-in for pandas' missing values (NaN / NaT). */
module Wrappers {

  datatype Option<+T> = None | Some(value: T)
}
