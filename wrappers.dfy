/** The optional value used by the scanners and the decoder: a pattern that may
    not match, a JavaScript variable that may still be undefined. */
module Wrappers {
  datatype Option<+T> = None | Some(value: T)
}
