/** Optional values: a Java reference that may be null, or an SQL column that may hold NULL. */
module Wrappers {

  datatype Option<+T> = None | Some(value: T)
}
