/** Optional results: the simulator answers `None` where a lookup or a read has nothing to give. */
module Wrappers {
  datatype Option<T> = None | Some(value: T)
}
