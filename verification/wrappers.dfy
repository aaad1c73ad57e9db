/** Optional values, standing in for JavaScript's `undefined`/`null` results
    of lookups such as `Array.prototype.find` and Mongoose's `findOne`. */
module Wrappers {

  datatype Option<+T> = None | Some(value: T)
}
