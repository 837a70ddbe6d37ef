/** Optional values: the model's stand-in for JavaScript's `null`/`undefined`
    results and for a step that throws. */
module Wrappers {

  datatype Option<+T> = None | Some(value: T)

}
