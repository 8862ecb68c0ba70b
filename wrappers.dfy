/** The optional value used wherever the client may see `undefined`, `null` or a failed read. */
module Wrappers {
  datatype Option<+T> = None | Some(value: T)
}
