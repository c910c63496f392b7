/** The optional value used for pandas' missing cells and Python's `None` arguments. */
module Wrappers {

  /** `None` stands for a missing value (NaN, NaT or `None` in the source). */
  datatype Option<+T> = None | Some(value: T)
}
