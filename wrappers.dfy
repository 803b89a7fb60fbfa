/** A value that may be missing: Unity's `null` tile, or a field not yet assigned. */
module Wrappers {

  datatype Option<+T> = None | Some(value: T)
}
