/** Optional values: `None` stands for a Python `None` return or a failed lookup. */
module Wrappers {

  datatype Option<+T> = None | Some(value: T)
}
