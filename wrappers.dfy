/** Optional values: `None` stands for JavaScript's `null`, `undefined` or `NaN`,
    whichever the modelled code returns when it has no value to give. */
module Wrappers {

  datatype Option<+T> = None | Some(value: T)
}
