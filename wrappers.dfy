/** Optional values: a probe result that may be missing, an evaluation that may raise. */
module Wrappers {

  datatype Option<+T> = None | Some(value: T)

}
