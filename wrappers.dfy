/** Optional values, used where the .NET code signals failure by a `Try…` result or an exception. */
module Wrappers {

  datatype Option<+T> = None | Some(value: T)

}
