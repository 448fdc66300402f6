/** Small failure-carrying datatypes shared by the ingestion model. */
module Common {

  /** A value that may be absent; `None` also stands for "the call raised". */
  datatype Option<+T> = None | Some(value: T)

  /** Either a value or the exception the Python code would raise. */
  datatype Result<+R, +E> = Success(value: R) | Failure(error: E)

  function Min(a: int, b: int): int
  {
    if a <= b then a else b
  }
}
