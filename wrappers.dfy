/** Optional values: Java's `Optional` and nullable references. */
module Wrappers {

  datatype Option<+T> = None | Some(value: T)
}
