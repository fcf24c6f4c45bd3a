/** Optional values, used for "no active editor", "no fire" and "parse failed". */
module Wrappers {

  datatype Option<+T> = None | Some(value: T)

}
