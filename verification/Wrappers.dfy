/** Optional values, for what the modelled programs hold as null, None or a missing entry. */
module Wrappers {

  datatype Option<+T> = None | Some(value: T)
}
