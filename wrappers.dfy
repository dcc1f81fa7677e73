/**
 * The optional value shared by every module.
 */
module Wrappers {

  /** A .NET string reference that may be `null` (`None`), or a lookup that may miss. */
  datatype Option<T> = None | Some(value: T)
}
