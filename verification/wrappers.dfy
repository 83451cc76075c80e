/** Optional values: a value the source leaves `undefined` or that JavaScript
    arithmetic turns into `NaN`. */
module Wrappers {

  datatype Option<+T> = None | Some(value: T)
}
