/** Optional values: stands for the nullable node pointers of the pixel grid. */
module Wrappers {
  datatype Option<+T> = None | Some(value: T)
}
