/** Optional values, used for the outcomes that can be absent in the model. */
module Wrappers {

  datatype Option<+T> = None | Some(value: T)
}
