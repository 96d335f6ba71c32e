/** The optional value the portal uses for SQL NULLs and absent request fields. */
module Wrappers {
  datatype Option<+T> = None | Some(value: T)
}
