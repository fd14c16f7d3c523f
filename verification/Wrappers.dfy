// A value that may be missing: the source's sentinel returns and out-parameters.
module Wrappers {
  datatype Option<T> = None | Some(value: T)
}
