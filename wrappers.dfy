/** Optional values: a Python lookup that may raise (an index past the end,
    a missing row) returns None here instead. */
module Wrappers {
  datatype Option<+T> = None | Some(value: T)
}
