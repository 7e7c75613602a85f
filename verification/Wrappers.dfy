/** A value that may be missing: SQL's NULL, Python's None, an absent JSON key. */
module Wrappers {
  datatype Option<+T> = None | Some(value: T)

  function OrElse<T>(x: Option<T>, default: T): T {
    if x.Some? then x.value else default
  }
}
