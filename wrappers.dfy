/** The optional value used for the source's `string | null` results. */
module Wrappers {
  datatype Option<+T> = None | Some(value: T)
}
