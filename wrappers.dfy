/** Small failure-compatible result types shared by the containers. */
module Wrappers {

  /** An optional value: the library's std::optional results. */
  datatype Option<T> = None | Some(value: T)

  /** The outcome of a checked access: a value, or the out-of-range condition
      that Vector::At signals by throwing std::out_of_range. */
  datatype Checked<T> = Ok(value: T) | OutOfRange
}
