/** Optional values: `None` stands for the source's `false`/`undefined` results. */
module Wrappers {

  datatype Option<+T> = None | Some(value: T)
}
