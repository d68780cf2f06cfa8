/** Optional values: `None` stands for JavaScript's `undefined` (an absent key,
    an unparseable date, a failed lookup). */
module Wrappers {

  datatype Option<+T> = None | Some(value: T)
}
