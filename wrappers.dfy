/** The optional-value type that stands for `T | null` in the front end and
    for a nil pointer in the server. */
module Wrappers {

  datatype Option<+T> = None | Some(value: T)
}
