/** Present-or-absent results. */
module Wrappers {

  /** `None` stands for the C library's NULL "absent" sentinel. Unlike NULL it
      cannot be confused with a stored value, so a table holding NULL values
      still answers unambiguously. */
  datatype Option<+T> = None | Some(value: T)
}
