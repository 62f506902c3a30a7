/** Optional values: a missing JavaScript property, a missing database document. */
module Options {

  datatype Option<+T> = None | Some(value: T)
}
