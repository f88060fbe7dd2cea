/** Small failure-carrying datatypes shared by the whole model. */
module Wrappers {

  /** A value that may be absent. */
  datatype Option<+T> = None | Some(value: T)

  /** The outcome of an operation that either produces a value or fails with an error. */
  datatype Result<+R, +E> = Success(value: R) | Failure(error: E)

  /** An attribute read from an upstream (platform library) object. Reading a `Missing`
      attribute is what raises `AttributeError` in the collector. */
  datatype Attr<+T> = Missing | Has(value: T)
}
