/** Nullable results: a Go nil pointer or "not found" is None. */
module Wrappers {

  datatype Option<+T> = None | Some(value: T)

}
