/** Optional values, as returned by searches and by the oracles of the model. */
module Wrappers {

  datatype Option<+T> = None | Some(value: T)
}
