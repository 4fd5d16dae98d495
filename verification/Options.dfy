/** Optional values: results of lookups, absent fields, and operations that may throw. */
module Options {

  datatype Option<+T> = None | Some(value: T)
}
