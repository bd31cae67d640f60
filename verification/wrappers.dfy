/** Optional values. `None` stands where the C code holds a NULL pointer or
    leaves a slot unwritten. */
module Wrappers {

  datatype Option<+T> = None | Some(value: T)
}
