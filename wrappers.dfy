/** The absent-value signal shared by all the containers: `None` for an empty
    container or an index out of range, `Some(v)` otherwise. */
module Wrappers {
  datatype Option<+T> = None | Some(value: T)
}
