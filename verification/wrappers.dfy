/** Failure-compatible optional value, used for Python's empty-list result
    and for the exceptions the pipeline raises on malformed input. */
module Wrappers {

  datatype Option<+T> = None | Some(value: T)

}
