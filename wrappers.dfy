/** The optional value used wherever the source has a value that may be
    missing (a JSON field, a prompt that was cancelled, a failed fetch). */
module Wrappers {

  datatype Option<+T> = None | Some(value: T)
}
