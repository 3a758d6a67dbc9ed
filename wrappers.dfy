/** The optional value used for SQL columns that may be NULL and for lookups that may miss. */
module Wrappers {

  datatype Option<+T> = None | Some(value: T)

}
