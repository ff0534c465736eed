/** A missing cell (pandas NaN / NaT) is None. */
module Wrappers {
  datatype Option<+T> = None | Some(value: T)
}
