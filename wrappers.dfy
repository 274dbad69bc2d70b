/** Optional values, standing in for a null `shared_ptr` or a missing map entry. */
module Wrappers {

  datatype Option<+T> = None | Some(value: T)
}
