/** Option datatype shared by the matcher and the extraction pipeline. */
module Wrappers {
  datatype Option<+T> = None | Some(value: T)
}
