/** Optional values, used for absent JSON fields, missing rows and requests not sent. */
module Wrappers {
  datatype Option<+T> = None | Some(value: T)
}
