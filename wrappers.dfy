/** The optional value that stands in for the source's `default` / `null` results. */
module Wrappers {

  datatype Option<+T> = None | Some(value: T)
}
