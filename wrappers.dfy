/** The optional-value wrapper used for dictionary lookups and scans. */
module Wrappers {

  datatype Option<+T> = None | Some(value: T)
}
