/** The optional value used for JavaScript's "found / not found" and "present / absent" results. */
module Wrappers {

  datatype Option<+T> = None | Some(value: T)
}
