/** Optional values: a JavaScript `undefined`, `null` or `NaN` becomes `None`. */
module Wrappers {

  datatype Option<+T> = None | Some(value: T)
}
