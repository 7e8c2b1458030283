/** Optional values. The source signals "nothing found" with `undefined`
    (or by swallowing an exception); the model uses `None` for both. */
module Wrappers {

  datatype Option<+T> = None | Some(value: T)
}
