/** Optional values, for results the source may decline to produce. */
module Wrappers {

  /** `None` stands for Python's `NotImplemented` sentinel. */
  datatype Option<+T> = None | Some(value: T)
}
