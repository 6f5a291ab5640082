/** Missing values and fallible results shared by every stage of the pipeline. */
module Wrappers {

  /** A value that may be missing (pandas NaN / NaT). */
  datatype Option<+T> = None | Some(value: T)

  /** The outcome of a stage that can raise. */
  datatype Result<+T, +E> = Ok(value: T) | Err(error: E)
}
