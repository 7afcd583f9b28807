/** The optional value used wherever the scripts return or compute Python's `None`. */
module Wrappers {

  /** `None` is Python's `None` (or a call that raises instead of returning); `Some` carries a value. */
  datatype Option<+T> = None | Some(value: T)
}
