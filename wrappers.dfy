/** Small failure-carrying datatypes shared by the other modules. */
module Wrappers {

  /** Python's `None` or a present value. */
  datatype Option<T> = None | Some(value: T)

  /** The value a step computes, or the `KeyError` it raises; `key` is the missing dictionary key. */
  datatype Result<T> = Ok(value: T) | KeyError(key: char)
}
