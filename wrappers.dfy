/** Optional values (SQL NULL, a JSON null, a lookup that finds nothing). */
module Wrappers {

  datatype Option<+T> = None | Some(value: T)
}
