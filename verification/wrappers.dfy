/** Optional values: a TypeScript `T | undefined` field becomes an `Option<T>`. */
module Wrappers {

  datatype Option<+T> = None | Some(value: T)
}
