/** Optional values: `None` stands for the NULL pointer the C code returns
    when there is nothing to hand back. */
module Wrappers {

  datatype Option<+T> = None | Some(value: T)
}
