/** Optional values: `None` stands for an absent item or a failed conversion. */
module Wrappers {
  datatype Option<+T> = None | Some(value: T)
}
