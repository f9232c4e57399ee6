/** Optional values: a query that finds no row, a lookup that fails, a Python exception. */
module Wrappers {

  datatype Option<+T> = None | Some(value: T)
}
