/** Optional values: `None` stands for the `null` the source returns for a missing cell or a missing path. */
module Wrappers {

  datatype Option<+T> = None | Some(value: T)
}
