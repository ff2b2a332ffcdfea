/** Optional values: JavaScript's `undefined`/`null` results of map lookups and nullable parameters. */
module Wrappers {

  datatype Option<+T> = None | Some(value: T)
}
