/** Optional values: `None` stands for a C# null reference or a missing entry. */
module Wrappers {
  datatype Option<+T> = None | Some(value: T)
}
