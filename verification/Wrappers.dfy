/** The stock optional value, used for the source's NULL results and failure returns. */
module Wrappers {
  datatype Option<+T> = None | Some(value: T)
}
