/** A value that the source may read as `undefined`. */
module Wrappers {

  datatype Option<+T> = None | Some(value: T)
}
